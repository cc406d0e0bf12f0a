/** The centre of the two engines: a printed comparison, read back and applied, turns the old file
    into the new one, and in reverse the new one into the old. */
module RoundTrip {
  import opened EditScript
  import opened Text
  import opened Hunks
  import opened Unified
  import opened ParsePrinted
  import opened PatchApply
  import opened PatchWindows
  import opened PatchFits
  import opened DiffEngine

  // The file a patch starts from and the one it leads to.
  ghost function FromFile(fa: FileLines, fb: FileLines, reverse: bool): FileLines {
    if reverse then fb else fa
  }

  ghost function ToFile(fa: FileLines, fb: FileLines, reverse: bool): FileLines {
    if reverse then fa else fb
  }

  // ----- The sides of a hunk are lines of the files -----

  lemma OpSides(fa: FileLines, fb: FileLines, op: EditOp, reverse: bool)
    requires InFiles(fa, fb, op) && (op.Equal? ==> fa.lines[op.oldIdx] == fb.lines[op.newIdx])
    ensures Side(OpBody(fa, fb, op, reverse), if reverse then '+' else '-') == if op.Insert? then [] else [fa.lines[op.oldIdx]]
    ensures Side(OpBody(fa, fb, op, reverse), if reverse then '-' else '+') == if op.Delete? then [] else [fb.lines[op.newIdx]]
  {
    match op {
      case Equal(i, j) =>
        if PrintedAsChange(fa, fb, op) {
          TwoLines(Signed('-', fa.lines[i], reverse), Signed('+', fb.lines[j], reverse), '-');
          TwoLines(Signed('-', fa.lines[i], reverse), Signed('+', fb.lines[j], reverse), '+');
        } else {
          OneLine(" " + fa.lines[i], '-');
          OneLine(" " + fa.lines[i], '+');
        }
      case Delete(i) =>
        OneLine(Signed('-', fa.lines[i], reverse), '-');
        OneLine(Signed('-', fa.lines[i], reverse), '+');
      case Insert(j) =>
        OneLine(Signed('+', fb.lines[j], reverse), '-');
        OneLine(Signed('+', fb.lines[j], reverse), '+');
    }
  }

  lemma OneLine(line: string, sign: char)
    ensures Side([line], sign) == if OnSide(line, sign) then [line[1..]] else []
  {
    assert [line][..0] == [];
  }

  lemma TwoLines(s: string, t: string, sign: char)
    ensures Side([s, t], sign) == (if OnSide(s, sign) then [s[1..]] else []) + if OnSide(t, sign) then [t[1..]] else []
  {
    OneLine(s, sign);
    assert [s, t][..1] == [s];
  }

  lemma FirstOfSlice(s: seq<string>, from: nat, to: nat)
    requires from <= to <= |s|
    ensures from < to ==> s[from..to] == [s[from]] + s[from + 1..to]
  {
  }

  lemma {:induction false} BodySides(fa: FileLines, fb: FileLines, ops: seq<EditOp>, reverse: bool,
                                     x: nat, y: nat, u: nat, v: nat)
    requires Path(fa.lines, fb.lines, ops, x, y, u, v) && AllInFiles(fa, fb, ops)
    requires x <= u <= |fa.lines| && y <= v <= |fb.lines|
    ensures Side(OpsBody(fa, fb, ops, reverse), if reverse then '+' else '-') == fa.lines[x..u]
    ensures Side(OpsBody(fa, fb, ops, reverse), if reverse then '-' else '+') == fb.lines[y..v]
    decreases |ops|
  {
    hide Side, OpBody, InFiles;
    if ops == [] {
      NoLine();
    } else {
      var o, rest := ops[0], ops[1..];
      var x' := if o.Insert? then x else x + 1;
      var y' := if o.Delete? then y else y + 1;
      PathBounds(fa.lines, fb.lines, rest, x', y', u, v);
      BodySides(fa, fb, rest, reverse, x', y', u, v);
      assert InFiles(fa, fb, o);
      OpSides(fa, fb, o, reverse);
      SideConcat(OpBody(fa, fb, o, reverse), OpsBody(fa, fb, rest, reverse), '-');
      SideConcat(OpBody(fa, fb, o, reverse), OpsBody(fa, fb, rest, reverse), '+');
      FirstOfSlice(fa.lines, x, u);
      FirstOfSlice(fb.lines, y, v);
    }
  }

  lemma NoLine()
    ensures Side([], '-') == [] && Side([], '+') == []
  {
  }

  // ----- Where a comparison stands at a hunk -----

  ghost function WindowOf(ops: seq<EditOp>, s: Span, reverse: bool): Window
    requires s.lo <= s.hi <= |ops|
  {
    if reverse then Window(NewUsed(ops[..s.lo]), NewUsed(ops[..s.hi]), OldUsed(ops[..s.lo]), OldUsed(ops[..s.hi]))
    else Window(OldUsed(ops[..s.lo]), OldUsed(ops[..s.hi]), NewUsed(ops[..s.lo]), NewUsed(ops[..s.hi]))
  }

  lemma UsedGrows(ops: seq<EditOp>, i: nat, j: nat)
    requires i <= j <= |ops|
    ensures OldUsed(ops[..i]) <= OldUsed(ops[..j]) && NewUsed(ops[..i]) <= NewUsed(ops[..j])
  {
    UsedSplit(ops, i, j);
  }

  lemma UsedOne(ops: seq<EditOp>, i: nat)
    requires i < |ops|
    ensures OldUsed(ops[..i + 1]) == OldUsed(ops[..i]) + if ops[i].Insert? then 0 else 1
    ensures NewUsed(ops[..i + 1]) == NewUsed(ops[..i]) + if ops[i].Delete? then 0 else 1
  {
    assert ops[..i + 1][..i] == ops[..i];
  }

  lemma UsedAll<T>(a: seq<T>, b: seq<T>, ops: seq<EditOp>)
    requires ValidScript(a, b, ops)
    ensures OldUsed(ops) == |a| && NewUsed(ops) == |b| && ops[..|ops|] == ops
  {
    PathUses(a, b, ops, 0, 0, |a|, |b|);
  }

  lemma PathBetween<T>(a: seq<T>, b: seq<T>, ops: seq<EditOp>, lo: nat, hi: nat)
    requires ValidScript(a, b, ops) && lo <= hi <= |ops|
    ensures OldUsed(ops[..lo]) <= OldUsed(ops[..hi]) <= |a| && NewUsed(ops[..lo]) <= NewUsed(ops[..hi]) <= |b|
    ensures Path(a, b, ops[lo..hi], OldUsed(ops[..lo]), NewUsed(ops[..lo]), OldUsed(ops[..hi]), NewUsed(ops[..hi]))
  {
    hide Path, OldUsed, NewUsed;
    UsedGrows(ops, lo, hi);
    UsedGrows(ops, hi, |ops|);
    UsedAll(a, b, ops);
    PathAt(a, b, ops, lo);
    var rest := ops[lo..];
    assert rest == ops[lo..hi] + ops[hi..];
    var p, q := PathSplit(a, b, ops[lo..hi], ops[hi..], OldUsed(ops[..lo]), NewUsed(ops[..lo]), |a|, |b|);
    PathUses(a, b, ops[lo..hi], OldUsed(ops[..lo]), NewUsed(ops[..lo]), p, q);
    UsedSplit(ops, lo, hi);
  }

  // With context, a hunk that does not begin or end with the files begins or ends with a kept line.
  lemma ContextEnds(ops: seq<EditOp>, s: Span, r: ChangeRange, context: nat)
    requires WithContext(ops, s, r, context)
    ensures s.lo <= r.first <= r.last < s.hi <= |ops|
    ensures context >= 1 && s.lo > 0 ==> ops[s.lo].Equal?
    ensures context >= 1 && s.hi < |ops| ==> ops[s.hi - 1].Equal?
  {
  }

  // Every change is in a hunk.
  lemma ChangeInSpan(ops: seq<EditOp>, context: nat, hunks: seq<Hunk>, spans: seq<Span>, ranges: seq<ChangeRange>, p: nat)
    returns (k: nat)
    requires HunksOf(ops, context, hunks, spans, ranges) && p < |ops| && !ops[p].Equal?
    ensures k < |spans| && spans[k].lo <= p < spans[k].hi
  {
    k := CoveringRange(ops, ranges, |ops|, p);
    assert WithContext(ops, spans[k], ranges[k], context);
    ContextEnds(ops, spans[k], ranges[k], context);
  }

  // Between the hunks lines are kept.
  lemma GapIsKept(ops: seq<EditOp>, context: nat, hunks: seq<Hunk>, spans: seq<Span>, ranges: seq<ChangeRange>, k: nat, p: nat)
    requires HunksOf(ops, context, hunks, spans, ranges) && k <= |spans| && p < |ops|
    requires k > 0 ==> spans[k - 1].hi <= p
    requires k < |spans| ==> p < spans[k].lo
    ensures ops[p].Equal?
  {
    hide HunkAt, WithContext, Covers;
    if !ops[p].Equal? {
      var j := ChangeInSpan(ops, context, hunks, spans, ranges, p);
      if j < k {
        assert j < k - 1 ==> spans[j].hi <= spans[k - 1].lo;
        SpanIsProper(ops, context, hunks, spans, ranges, k - 1);
      } else {
        assert k < j ==> spans[k].hi <= spans[j].lo;
        SpanIsProper(ops, context, hunks, spans, ranges, k);
      }
    }
  }

  lemma SpanIsProper(ops: seq<EditOp>, context: nat, hunks: seq<Hunk>, spans: seq<Span>, ranges: seq<ChangeRange>, k: nat)
    requires HunksOf(ops, context, hunks, spans, ranges) && k < |spans|
    ensures k < |hunks| && spans[k].lo < spans[k].hi <= |ops| && HunkAt(ops, hunks[k], spans[k])
    ensures context >= 1 && spans[k].lo > 0 ==> ops[spans[k].lo].Equal?
    ensures context >= 1 && spans[k].hi < |ops| ==> ops[spans[k].hi - 1].Equal?
  {
    assert HunkAt(ops, hunks[k], spans[k]) && WithContext(ops, spans[k], ranges[k], context);
    ContextEnds(ops, spans[k], ranges[k], context);
  }

  lemma {:induction false} KeptLinesEqual<T>(a: seq<T>, b: seq<T>, ops: seq<EditOp>, x: nat, y: nat, u: nat, v: nat)
    requires Path(a, b, ops, x, y, u, v) && AllKept(ops) && x <= u <= |a| && y <= v <= |b|
    ensures a[x..u] == b[y..v]
    decreases |ops|
  {
    if ops != [] {
      PathBounds(a, b, ops[1..], x + 1, y + 1, u, v);
      KeptLinesEqual(a, b, ops[1..], x + 1, y + 1, u, v);
      assert a[x..u] == [a[x]] + a[x + 1..u];
      assert b[y..v] == [b[y]] + b[y + 1..v];
    }
  }

  // ----- A hunk that reaches the end of one file reaches the end of the other -----

  // Once all old lines are used, only insertions follow; and once all new lines are, only deletions.
  lemma AllUsed<T>(a: seq<T>, b: seq<T>, ops: seq<EditOp>, p: nat, q: nat)
    requires ValidScript(a, b, ops) && p <= q < |ops|
    ensures OldUsed(ops[..p]) == |a| ==> ops[q].Insert?
    ensures NewUsed(ops[..p]) == |b| ==> ops[q].Delete?
  {
    hide Path, OldUsed, NewUsed;
    UsedGrows(ops, p, q);
    PathAt(a, b, ops, q);
  }

  lemma ReachesEnd<T>(a: seq<T>, b: seq<T>, ops: seq<EditOp>, context: nat, hunks: seq<Hunk>, spans: seq<Span>,
                      ranges: seq<ChangeRange>, k: nat, p: nat)
    requires ValidScript(a, b, ops) && HunksOf(ops, context, hunks, spans, ranges)
    requires k < |spans| && spans[k].lo <= p < spans[k].hi <= |ops|
    requires OldUsed(ops[..p + 1]) == |a| || NewUsed(ops[..p + 1]) == |b|
    ensures spans[k].hi == |ops|
  {
    hide Path, OldUsed, NewUsed, HunkAt, WithContext, Covers;
    SpanIsProper(ops, context, hunks, spans, ranges, k);
    var hi := spans[k].hi;
    if hi < |ops| {
      AllUsed(a, b, ops, p + 1, hi);
      if p + 1 < hi {
        AllUsed(a, b, ops, p + 1, hi - 1);
      }
      var j := ChangeInSpan(ops, context, hunks, spans, ranges, hi);
      SpanIsProper(ops, context, hunks, spans, ranges, j);
    }
  }

  // ----- The markers -----

  // Whether a hunk has the last line of a file, and that line has no newline.
  ghost predicate HasUnterminated(f: FileLines, lo: nat, hi: nat) {
    lo < hi == |f.lines| && !f.hasTrailingNewline
  }

  lemma {:induction false} LastUse(ops: seq<EditOp>, lo: nat, hi: nat, old': bool) returns (p: nat)
    requires lo <= hi <= |ops|
    requires if old' then OldUsed(ops[..lo]) < OldUsed(ops[..hi]) else NewUsed(ops[..lo]) < NewUsed(ops[..hi])
    ensures lo <= p < hi
    ensures if old' then !ops[p].Insert? && OldUsed(ops[..p]) + 1 == OldUsed(ops[..hi])
            else !ops[p].Delete? && NewUsed(ops[..p]) + 1 == NewUsed(ops[..hi])
    decreases hi
  {
    hide OldUsed, NewUsed;
    p := hi - 1;
    UsedOne(ops, hi - 1);
    if (if old' then ops[p].Insert? else ops[p].Delete?) {
      p := LastUse(ops, lo, hi - 1, old');
    }
  }

  lemma MarkedNew(fa: FileLines, fb: FileLines, ops: seq<EditOp>, context: nat, hunks: seq<Hunk>, spans: seq<Span>,
                  ranges: seq<ChangeRange>, k: nat)
    requires ValidScript(fa.lines, fb.lines, ops) && HunksOf(ops, context, hunks, spans, ranges)
    requires k < |spans| && spans[k].lo <= spans[k].hi <= |ops| && AllInFiles(fa, fb, hunks[k].ops)
    ensures AnyMarksNew(fa, fb, hunks[k].ops)
       <==> HasUnterminated(fb, NewUsed(ops[..spans[k].lo]), NewUsed(ops[..spans[k].hi]))
  {
    hide Path, OldUsed, NewUsed, WithContext, Covers, HunksOf;
    var lo, hi := spans[k].lo, spans[k].hi;
    SpanIsProper(ops, context, hunks, spans, ranges, k);
    UsedAll(fa.lines, fb.lines, ops);
    UsedGrows(ops, hi, |ops|);
    if AnyMarksNew(fa, fb, hunks[k].ops) {
      var i :| 0 <= i < |hunks[k].ops| && MarksNew(fa, fb, hunks[k].ops[i]);
      var p := lo + i;
      assert hunks[k].ops[i] == ops[p];
      PathAt(fa.lines, fb.lines, ops, p);
      UsedOne(ops, p);
      UsedGrows(ops, lo, p);
      UsedGrows(ops, p + 1, hi);
      if NewUsed(ops[..p + 1]) < |fb.lines| {
        ReachesEnd(fa.lines, fb.lines, ops, context, hunks, spans, ranges, k, p);
      }
    }
    if HasUnterminated(fb, NewUsed(ops[..lo]), NewUsed(ops[..hi])) {
      var p := LastUse(ops, lo, hi, false);
      PathAt(fa.lines, fb.lines, ops, p);
      assert hunks[k].ops[p - lo] == ops[p];
      assert MarksNew(fa, fb, hunks[k].ops[p - lo]);
    }
  }

  lemma MarkedOld(fa: FileLines, fb: FileLines, ops: seq<EditOp>, context: nat, hunks: seq<Hunk>, spans: seq<Span>,
                  ranges: seq<ChangeRange>, k: nat)
    requires ValidScript(fa.lines, fb.lines, ops) && HunksOf(ops, context, hunks, spans, ranges)
    requires k < |spans| && spans[k].lo <= spans[k].hi <= |ops| && AllInFiles(fa, fb, hunks[k].ops)
    ensures AnyMarksOld(fa, fb, hunks[k].ops)
       <==> HasUnterminated(fa, OldUsed(ops[..spans[k].lo]), OldUsed(ops[..spans[k].hi]))
  {
    hide Path, OldUsed, NewUsed, WithContext, Covers, HunksOf;
    var lo, hi := spans[k].lo, spans[k].hi;
    SpanIsProper(ops, context, hunks, spans, ranges, k);
    UsedAll(fa.lines, fb.lines, ops);
    UsedGrows(ops, hi, |ops|);
    if AnyMarksOld(fa, fb, hunks[k].ops) {
      var i :| 0 <= i < |hunks[k].ops| && MarksOld(fa, fb, hunks[k].ops[i]);
      var p := lo + i;
      assert hunks[k].ops[i] == ops[p];
      PathAt(fa.lines, fb.lines, ops, p);
      UsedOne(ops, p);
      UsedGrows(ops, lo, p);
      UsedGrows(ops, p + 1, hi);
      if OldUsed(ops[..p + 1]) < |fa.lines| {
        ReachesEnd(fa.lines, fb.lines, ops, context, hunks, spans, ranges, k, p);
      }
    }
    if HasUnterminated(fa, OldUsed(ops[..lo]), OldUsed(ops[..hi])) {
      var p := LastUse(ops, lo, hi, true);
      PathAt(fa.lines, fb.lines, ops, p);
      assert hunks[k].ops[p - lo] == ops[p];
      assert MarksOld(fa, fb, hunks[k].ops[p - lo]);
    }
  }

  // ----- The hunks fit -----

  ghost function WindowsOf(ops: seq<EditOp>, spans: seq<Span>, reverse: bool): seq<Window>
    requires forall k :: 0 <= k < |spans| ==> spans[k].lo <= spans[k].hi <= |ops|
  {
    seq(|spans|, k requires 0 <= k < |spans| => WindowOf(ops, spans[k], reverse))
  }

  ghost predicate SpansInside(ops: seq<EditOp>, spans: seq<Span>) {
    forall k :: 0 <= k < |spans| ==> spans[k].lo <= spans[k].hi <= |ops|
  }

  lemma HunkFitsWindow(fa: FileLines, fb: FileLines, ops: seq<EditOp>, context: nat, hunks: seq<Hunk>, spans: seq<Span>,
                       ranges: seq<ChangeRange>, k: nat, reverse: bool)
    requires ValidScript(fa.lines, fb.lines, ops) && HunksOf(ops, context, hunks, spans, ranges)
    requires k < |spans| && spans[k].lo <= spans[k].hi <= |ops| && AllInFiles(fa, fb, hunks[k].ops) && context >= 1
    ensures HunkFits(FromFile(fa, fb, reverse), ToFile(fa, fb, reverse), PatchHunkOf(fa, fb, hunks[k], reverse),
                     WindowOf(ops, spans[k], reverse))
  {
    hide Path, OldUsed, NewUsed, Side, OpsBody, AnyMarksOld, AnyMarksNew, AllInFiles, WithContext, Covers, HunksOf;
    SpanIsProper(ops, context, hunks, spans, ranges, k);
    var lo, hi := spans[k].lo, spans[k].hi;
    PathBetween(fa.lines, fb.lines, ops, lo, hi);
    BodySides(fa, fb, hunks[k].ops, reverse, OldUsed(ops[..lo]), NewUsed(ops[..lo]), OldUsed(ops[..hi]), NewUsed(ops[..hi]));
    MarkedNew(fa, fb, ops, context, hunks, spans, ranges, k);
    MarkedOld(fa, fb, ops, context, hunks, spans, ranges, k);
    UsedSplit(ops, lo, hi);
    SideMissing(fa.lines, fb.lines, ops, spans[k]);
  }

  // A hunk without lines of one side has no kept line, so it is the whole script.
  lemma SideMissing<T>(a: seq<T>, b: seq<T>, ops: seq<EditOp>, s: Span)
    requires ValidScript(a, b, ops) && s.lo < s.hi <= |ops|
    requires s.lo > 0 ==> ops[s.lo].Equal?
    requires s.hi < |ops| ==> ops[s.hi - 1].Equal?
    ensures OldUsed(ops[..s.lo]) == OldUsed(ops[..s.hi]) ==> a == []
    ensures NewUsed(ops[..s.lo]) == NewUsed(ops[..s.hi]) ==> b == []
  {
    hide Path, OldUsed, NewUsed;
    UsedOne(ops, s.lo);
    UsedOne(ops, s.hi - 1);
    UsedGrows(ops, s.lo + 1, s.hi);
    UsedGrows(ops, s.lo, s.hi - 1);
    UsedAll(a, b, ops);
    NothingUsed(ops);
  }

  lemma NothingUsed(ops: seq<EditOp>)
    ensures OldUsed(ops[..0]) == 0 && NewUsed(ops[..0]) == 0
  {
  }

  // Where the files stand before the k-th hunk, as a position of the script.
  ghost function StandsAt(spans: seq<Span>, k: nat): nat
    requires k <= |spans|
  {
    if k == 0 then 0 else spans[k - 1].hi
  }

  lemma GapFitsWindows(fa: FileLines, fb: FileLines, ops: seq<EditOp>, context: nat, hunks: seq<Hunk>, spans: seq<Span>,
                       ranges: seq<ChangeRange>, k: nat)
    requires ValidScript(fa.lines, fb.lines, ops) && HunksOf(ops, context, hunks, spans, ranges)
    requires k <= |spans|
    ensures var lo, hi := StandsAt(spans, k), if k < |spans| then spans[k].lo else |ops|;
            && lo <= hi <= |ops|
            && OldUsed(ops[..lo]) <= OldUsed(ops[..hi]) <= |fa.lines| && NewUsed(ops[..lo]) <= NewUsed(ops[..hi]) <= |fb.lines|
            && fa.lines[OldUsed(ops[..lo])..OldUsed(ops[..hi])] == fb.lines[NewUsed(ops[..lo])..NewUsed(ops[..hi])]
            && forall p :: lo <= p < hi ==> ops[p].Equal?
  {
    hide Path, OldUsed, NewUsed, HunkAt, WithContext, Covers;
    var lo, hi := StandsAt(spans, k), if k < |spans| then spans[k].lo else |ops|;
    if k > 0 {
      SpanIsProper(ops, context, hunks, spans, ranges, k - 1);
    }
    if k < |spans| {
      SpanIsProper(ops, context, hunks, spans, ranges, k);
    }
    assert lo <= hi <= |ops|;
    forall p | lo <= p < hi ensures ops[p].Equal? {
      GapIsKept(ops, context, hunks, spans, ranges, k, p);
    }
    PathBetween(fa.lines, fb.lines, ops, lo, hi);
    KeptLinesEqual(fa.lines, fb.lines, ops[lo..hi], OldUsed(ops[..lo]), NewUsed(ops[..lo]), OldUsed(ops[..hi]), NewUsed(ops[..hi]));
  }

  // Lines kept after the last hunk keep the end of the file.
  lemma TailKeepsEnd(fa: FileLines, fb: FileLines, ops: seq<EditOp>, from: nat)
    requires ValidScript(fa.lines, fb.lines, ops) && TailShown(fa, fb, ops) && from <= |ops|
    requires forall p :: from <= p < |ops| ==> ops[p].Equal?
    requires OldUsed(ops[..from]) < |fa.lines| || NewUsed(ops[..from]) < |fb.lines|
    ensures fa.hasTrailingNewline == fb.hasTrailingNewline
  {
    hide Path, OldUsed, NewUsed;
    UsedAll(fa.lines, fb.lines, ops);
    assert from < |ops|;
    var last := |ops| - 1;
    PathAt(fa.lines, fb.lines, ops, last);
    UsedOne(ops, last);
    assert ops[last].Equal? && KeepsLast(fa, fb, ops[last]);
  }

  /** The hunks of a comparison with at least one line of context fit the files, in both directions. */
  lemma ComparisonFits(fa: FileLines, fb: FileLines, ops: seq<EditOp>, context: nat, hunks: seq<Hunk>, spans: seq<Span>,
                       ranges: seq<ChangeRange>, reverse: bool)
    requires Comparison(fa, fb, ops, context, hunks, spans, ranges) && context >= 1
    requires HunksInFiles(fa, fb, hunks)
    ensures SpansInside(ops, spans)
    ensures Fits(FromFile(fa, fb, reverse), ToFile(fa, fb, reverse), PatchHunksOf(fa, fb, hunks, reverse),
                 WindowsOf(ops, spans, reverse))
  {
    hide Path, OldUsed, NewUsed, HunkAt, WithContext, Covers, HunkFits, PatchHunkOf, AllInFiles, TailShown;
    var a, b := FromFile(fa, fb, reverse), ToFile(fa, fb, reverse);
    forall k | 0 <= k < |spans| ensures spans[k].lo <= spans[k].hi <= |ops| {
      SpanIsProper(ops, context, hunks, spans, ranges, k);
    }
    var hs, ws := PatchHunksOf(fa, fb, hunks, reverse), WindowsOf(ops, spans, reverse);
    forall k | 0 <= k < |hs| ensures HunkFits(a, b, hs[k], ws[k]) {
      HunkFitsWindow(fa, fb, ops, context, hunks, spans, ranges, k, reverse);
    }
    NothingUsed(ops);
    forall k | 0 <= k < |hs| ensures GapFits(a, b, ws, k) {
      GapFitsWindows(fa, fb, ops, context, hunks, spans, ranges, k);
    }
    GapFitsWindows(fa, fb, ops, context, hunks, spans, ranges, |spans|);
    EndFits(fa, fb, ops, StandsAt(spans, |spans|));
  }

  lemma EndFits(fa: FileLines, fb: FileLines, ops: seq<EditOp>, lo: nat)
    requires ValidScript(fa.lines, fb.lines, ops) && TailShown(fa, fb, ops) && lo <= |ops|
    requires forall p :: lo <= p < |ops| ==> ops[p].Equal?
    requires OldUsed(ops[..lo]) <= OldUsed(ops[..|ops|]) <= |fa.lines| && NewUsed(ops[..lo]) <= NewUsed(ops[..|ops|]) <= |fb.lines|
    requires fa.lines[OldUsed(ops[..lo])..OldUsed(ops[..|ops|])] == fb.lines[NewUsed(ops[..lo])..NewUsed(ops[..|ops|])]
    ensures fa.lines[OldUsed(ops[..lo])..] == fb.lines[NewUsed(ops[..lo])..]
    ensures OldUsed(ops[..lo]) < |fa.lines| || NewUsed(ops[..lo]) < |fb.lines| ==> fa.hasTrailingNewline == fb.hasTrailingNewline
  {
    hide Path, OldUsed, NewUsed, TailShown;
    UsedAll(fa.lines, fb.lines, ops);
    if OldUsed(ops[..lo]) < |fa.lines| || NewUsed(ops[..lo]) < |fb.lines| {
      TailKeepsEnd(fa, fb, ops, lo);
    }
  }
}
