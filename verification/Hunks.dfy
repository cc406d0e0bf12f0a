/** Grouping the operations of a script into hunks with context, and numbering them the way POSIX
    prescribes for the unified format. */
module Hunks {
  import opened EditScript

  // A hunk: its line ranges, 1-based, and its operations.
  datatype Hunk = Hunk(oldStart: nat, oldCount: nat, newStart: nat, newCount: nat, ops: seq<EditOp>)

  // Positions first to last of a script, both included.
  datatype ChangeRange = ChangeRange(first: nat, last: nat)

  // Positions lo to hi of a script, hi excluded.
  datatype Span = Span(lo: nat, hi: nat)

  // ----- Lines a part of a script uses -----

  ghost function OldUsed(ops: seq<EditOp>): nat {
    if ops == [] then 0 else OldUsed(ops[..|ops| - 1]) + if ops[|ops| - 1].Insert? then 0 else 1
  }

  ghost function NewUsed(ops: seq<EditOp>): nat {
    if ops == [] then 0 else NewUsed(ops[..|ops| - 1]) + if ops[|ops| - 1].Delete? then 0 else 1
  }

  lemma {:induction false} UsedConcat(s: seq<EditOp>, t: seq<EditOp>)
    ensures OldUsed(s + t) == OldUsed(s) + OldUsed(t)
    ensures NewUsed(s + t) == NewUsed(s) + NewUsed(t)
  {
    if t == [] {
      assert s + t == s;
    } else {
      var t' := t[..|t| - 1];
      assert (s + t)[..|s + t| - 1] == s + t';
      UsedConcat(s, t');
    }
  }

  lemma UsedHead(ops: seq<EditOp>)
    requires ops != []
    ensures OldUsed(ops) == (if ops[0].Insert? then 0 else 1) + OldUsed(ops[1..])
    ensures NewUsed(ops) == (if ops[0].Delete? then 0 else 1) + NewUsed(ops[1..])
  {
    assert ops == ops[..1] + ops[1..];
    UsedConcat(ops[..1], ops[1..]);
    assert ops[..1][..0] == [];
  }

  lemma UsedNext(ops: seq<EditOp>, lo: nat, i: nat)
    requires lo <= i < |ops|
    ensures OldUsed(ops[lo..i + 1]) == OldUsed(ops[lo..i]) + if ops[i].Insert? then 0 else 1
    ensures NewUsed(ops[lo..i + 1]) == NewUsed(ops[lo..i]) + if ops[i].Delete? then 0 else 1
  {
    assert ops[lo..i + 1][..i - lo] == ops[lo..i];
  }

  lemma UsedSplit(ops: seq<EditOp>, lo: nat, i: nat)
    requires lo <= i <= |ops|
    ensures OldUsed(ops[..i]) == OldUsed(ops[..lo]) + OldUsed(ops[lo..i])
    ensures NewUsed(ops[..i]) == NewUsed(ops[..lo]) + NewUsed(ops[lo..i])
  {
    assert ops[..i] == ops[..lo] + ops[lo..i];
    UsedConcat(ops[..lo], ops[lo..i]);
  }

  // A path moves by the lines it uses.
  lemma {:induction false} PathUses<T>(a: seq<T>, b: seq<T>, ops: seq<EditOp>, x: nat, y: nat, u: nat, v: nat)
    requires Path(a, b, ops, x, y, u, v)
    ensures u == x + OldUsed(ops) && v == y + NewUsed(ops)
  {
    if ops != [] {
      UsedHead(ops);
      var x' := if ops[0].Insert? then x else x + 1;
      var y' := if ops[0].Delete? then y else y + 1;
      PathUses(a, b, ops[1..], x', y', u, v);
    }
  }

  // Where a script stands at its i-th operation.
  lemma PathAt<T>(a: seq<T>, b: seq<T>, ops: seq<EditOp>, i: nat)
    requires ValidScript(a, b, ops) && i <= |ops|
    ensures Path(a, b, ops[..i], 0, 0, OldUsed(ops[..i]), NewUsed(ops[..i]))
    ensures Path(a, b, ops[i..], OldUsed(ops[..i]), NewUsed(ops[..i]), |a|, |b|)
    ensures i < |ops| && !ops[i].Insert? ==> ops[i].oldIdx == OldUsed(ops[..i]) < |a|
    ensures i < |ops| && !ops[i].Delete? ==> ops[i].newIdx == NewUsed(ops[..i]) < |b|
    ensures i < |ops| && ops[i].Equal? ==> a[ops[i].oldIdx] == b[ops[i].newIdx]
  {
    assert ops == ops[..i] + ops[i..];
    var p, q := PathSplit(a, b, ops[..i], ops[i..], 0, 0, |a|, |b|);
    PathUses(a, b, ops[..i], 0, 0, p, q);
  }

  // ----- Ranges of changes -----

  ghost predicate Within(r: ChangeRange, p: int) {
    r.first <= p <= r.last
  }

  ghost predicate RangeOf(ops: seq<EditOp>, r: ChangeRange) {
    r.first <= r.last < |ops| && !ops[r.first].Equal? && !ops[r.last].Equal?
  }

  // Ranges in order and apart by more than gap; each begins and ends with a change.
  ghost predicate Ranges(ops: seq<EditOp>, rs: seq<ChangeRange>, gap: nat) {
    && (forall k :: 0 <= k < |rs| ==> RangeOf(ops, rs[k]))
    && (forall j, k :: 0 <= j < k < |rs| ==> rs[k].first - rs[j].last > gap)
  }

  // Every change below upTo is in one of the ranges.
  ghost predicate Covers(ops: seq<EditOp>, rs: seq<ChangeRange>, upTo: nat) {
    upTo <= |ops| &&
    forall p :: 0 <= p < upTo && !ops[p].Equal? ==> exists k :: 0 <= k < |rs| && Within(rs[k], p)
  }

  ghost predicate ChangeAfter(ops: seq<EditOp>, r: ChangeRange, gap: nat, p: int, q: int) {
    0 <= p < q <= p + gap && q <= r.last < |ops| && !ops[q].Equal?
  }

  ghost predicate HasNext(ops: seq<EditOp>, r: ChangeRange, gap: nat, p: int) {
    exists q :: ChangeAfter(ops, r, gap, p, q)
  }

  // From everywhere in the range the next change in it is at most gap away.
  ghost predicate Dense(ops: seq<EditOp>, r: ChangeRange, gap: nat) {
    forall p :: r.first <= p < r.last ==> HasNext(ops, r, gap, p)
  }

  ghost predicate AllDense(ops: seq<EditOp>, rs: seq<ChangeRange>, gap: nat) {
    forall k :: 0 <= k < |rs| ==> Dense(ops, rs[k], gap)
  }

  // A range with a gap of one is a run of changes.
  lemma DenseRun(ops: seq<EditOp>, r: ChangeRange)
    requires RangeOf(ops, r)
    ensures Dense(ops, r, 1) <==> forall p :: r.first <= p <= r.last ==> !ops[p].Equal?
  {
    if Dense(ops, r, 1) {
      forall p | r.first <= p <= r.last ensures !ops[p].Equal? {
        assert p > r.first ==> HasNext(ops, r, 1, p - 1);
      }
    }
    if forall p :: r.first <= p <= r.last ==> !ops[p].Equal? {
      forall p | r.first <= p < r.last ensures HasNext(ops, r, 1, p) {
        assert ChangeAfter(ops, r, 1, p, p + 1);
      }
    }
  }

  lemma DenseMore(ops: seq<EditOp>, r: ChangeRange, gap: nat, more: nat)
    requires Dense(ops, r, gap) && gap <= more
    ensures Dense(ops, r, more)
  {
    forall p | r.first <= p < r.last ensures HasNext(ops, r, more, p) {
      assert HasNext(ops, r, gap, p);
      var q :| ChangeAfter(ops, r, gap, p, q);
      assert ChangeAfter(ops, r, more, p, q);
    }
  }

  // A range and the next one, not more than gap behind it, are dense together.
  lemma DenseJoined(ops: seq<EditOp>, r: ChangeRange, next: ChangeRange, gap: nat)
    requires Dense(ops, r, gap) && Dense(ops, next, gap) && RangeOf(ops, next)
    requires r.last < next.first <= r.last + gap
    ensures Dense(ops, ChangeRange(r.first, next.last), gap)
  {
    var both := ChangeRange(r.first, next.last);
    forall p | both.first <= p < both.last ensures HasNext(ops, both, gap, p) {
      if p < r.last {
        assert HasNext(ops, r, gap, p);
        var q :| ChangeAfter(ops, r, gap, p, q);
        assert ChangeAfter(ops, both, gap, p, q);
      } else if p < next.first {
        assert ChangeAfter(ops, both, gap, p, next.first);
      } else {
        assert HasNext(ops, next, gap, p);
        var q :| ChangeAfter(ops, next, gap, p, q);
        assert ChangeAfter(ops, both, gap, p, q);
      }
    }
  }

  lemma DenseOne(ops: seq<EditOp>, i: nat, gap: nat)
    ensures Dense(ops, ChangeRange(i, i), gap)
  {
  }

  lemma AllDenseAppend(ops: seq<EditOp>, rs: seq<ChangeRange>, gap: nat, r: ChangeRange)
    requires AllDense(ops, rs, gap) && Dense(ops, r, gap)
    ensures AllDense(ops, rs + [r], gap)
  {
    hide Dense;
  }

  lemma AllDenseJoined(ops: seq<EditOp>, rs: seq<ChangeRange>, gap: nat, next: ChangeRange)
    requires rs != [] && AllDense(ops, rs, gap) && Dense(ops, next, gap) && RangeOf(ops, next)
    requires rs[|rs| - 1].last < next.first <= rs[|rs| - 1].last + gap
    ensures AllDense(ops, rs[|rs| - 1 := ChangeRange(rs[|rs| - 1].first, next.last)], gap)
  {
    hide Dense, RangeOf;
    DenseJoined(ops, rs[|rs| - 1], next, gap);
  }

  lemma DenseAt(ops: seq<EditOp>, rs: seq<ChangeRange>, gap: nat, k: nat, more: nat)
    requires AllDense(ops, rs, gap) && k < |rs| && gap <= more
    ensures Dense(ops, rs[k], more)
  {
    hide Dense;
    DenseMore(ops, rs[k], gap, more);
  }

  lemma NoneDense(ops: seq<EditOp>, gap: nat)
    ensures AllDense(ops, [], gap)
  {
  }

  lemma AppendRange(ops: seq<EditOp>, rs: seq<ChangeRange>, gap: nat, r: ChangeRange)
    requires Ranges(ops, rs, gap) && Covers(ops, rs, r.first) && RangeOf(ops, r)
    requires rs != [] ==> r.first - rs[|rs| - 1].last > gap
    ensures Ranges(ops, rs + [r], gap) && Covers(ops, rs + [r], r.last + 1)
  {
    hide Ranges, Covers;
    AppendKeepsOrder(ops, rs, gap, r);
    AppendCovers(ops, rs, r);
  }

  lemma AppendKeepsOrder(ops: seq<EditOp>, rs: seq<ChangeRange>, gap: nat, r: ChangeRange)
    requires Ranges(ops, rs, gap) && RangeOf(ops, r)
    requires rs != [] ==> r.first - rs[|rs| - 1].last > gap
    ensures Ranges(ops, rs + [r], gap)
  {
    hide Covers;
    var rs' := rs + [r];
    forall j, k | 0 <= j < k < |rs'| ensures rs'[k].first - rs'[j].last > gap {
      if k == |rs| {
        assert RangeOf(ops, rs[|rs| - 1]);
        assert j < |rs| - 1 ==> rs[|rs| - 1].first - rs[j].last > gap;
      }
    }
  }

  lemma AppendCovers(ops: seq<EditOp>, rs: seq<ChangeRange>, r: ChangeRange)
    requires r.last < |ops| && Covers(ops, rs, r.first)
    ensures Covers(ops, rs + [r], r.last + 1)
  {
    hide Ranges, RangeOf;
    var rs' := rs + [r];
    forall p | 0 <= p < r.last + 1 && !ops[p].Equal? ensures exists k :: 0 <= k < |rs'| && Within(rs'[k], p) {
      if p < r.first {
        var k :| 0 <= k < |rs| && Within(rs[k], p);
        assert rs'[k] == rs[k];
      } else {
        assert Within(rs'[|rs|], p);
      }
    }
  }

  lemma ExtendLast(ops: seq<EditOp>, rs: seq<ChangeRange>, gap: nat, last: nat, upTo: nat)
    requires rs != [] && Ranges(ops, rs, gap) && Covers(ops, rs, upTo) && upTo <= last < |ops|
    requires rs[|rs| - 1].last < upTo && !ops[last].Equal?
    ensures var rs' := rs[|rs| - 1 := ChangeRange(rs[|rs| - 1].first, last)];
            Ranges(ops, rs', gap) && Covers(ops, rs', last + 1)
  {
    hide Ranges, Covers;
    ExtendKeepsOrder(ops, rs, gap, last);
    ExtendCovers(ops, rs, last, upTo);
  }

  lemma ExtendKeepsOrder(ops: seq<EditOp>, rs: seq<ChangeRange>, gap: nat, last: nat)
    requires rs != [] && Ranges(ops, rs, gap) && rs[|rs| - 1].last < last < |ops| && !ops[last].Equal?
    ensures Ranges(ops, rs[|rs| - 1 := ChangeRange(rs[|rs| - 1].first, last)], gap)
    ensures rs[|rs| - 1].first <= rs[|rs| - 1].last
  {
    assert RangeOf(ops, rs[|rs| - 1]);
  }

  lemma ExtendCovers(ops: seq<EditOp>, rs: seq<ChangeRange>, last: nat, upTo: nat)
    requires rs != [] && Covers(ops, rs, upTo) && rs[|rs| - 1].last < upTo <= last < |ops|
    requires rs[|rs| - 1].first <= rs[|rs| - 1].last
    ensures Covers(ops, rs[|rs| - 1 := ChangeRange(rs[|rs| - 1].first, last)], last + 1)
  {
    hide Covers;
    var rs' := rs[|rs| - 1 := ChangeRange(rs[|rs| - 1].first, last)];
    forall p | 0 <= p < last + 1 && !ops[p].Equal? ensures exists k :: 0 <= k < |rs'| && Within(rs'[k], p) {
      var k := |rs| - 1;
      if p < upTo {
        k := CoveringRange(ops, rs, upTo, p);
      }
      assert Within(rs'[k], p);
    }
    IsCovered(ops, rs', last + 1);
  }

  lemma IsCovered(ops: seq<EditOp>, rs: seq<ChangeRange>, upTo: nat)
    requires upTo <= |ops|
    requires forall p :: 0 <= p < upTo && !ops[p].Equal? ==> exists k :: 0 <= k < |rs| && Within(rs[k], p)
    ensures Covers(ops, rs, upTo)
  {
  }

  // Kept lines after the last range need no range.
  lemma CoversFurther(ops: seq<EditOp>, rs: seq<ChangeRange>, upTo: nat, upTo': nat)
    requires Covers(ops, rs, upTo) && upTo <= upTo' <= |ops|
    requires forall p :: upTo <= p < upTo' ==> ops[p].Equal?
    ensures Covers(ops, rs, upTo')
  {
  }

  // The maximal runs of deletions and insertions.
  method FindChanges(ops: seq<EditOp>) returns (changes: seq<ChangeRange>)
    ensures Ranges(ops, changes, 1) && Covers(ops, changes, |ops|) && AllDense(ops, changes, 1)
  {
    hide Covers, Ranges, Within, AllDense, Dense;
    NoRanges(ops, 1);
    NoneDense(ops, 1);
    changes := [];
    for i := 0 to |ops|
      invariant Ranges(ops, changes, 1) && Covers(ops, changes, i) && AllDense(ops, changes, 1)
      invariant changes != [] ==> changes[|changes| - 1].last < i
    {
      if !ops[i].Equal? {
        DenseOne(ops, i, 1);
        if changes == [] || i > changes[|changes| - 1].last + 1 {
          AppendRange(ops, changes, 1, ChangeRange(i, i));
          AllDenseAppend(ops, changes, 1, ChangeRange(i, i));
          changes := changes + [ChangeRange(i, i)];
        } else {
          ExtendLast(ops, changes, 1, i, i);
          AllDenseJoined(ops, changes, 1, ChangeRange(i, i));
          var back := changes[|changes| - 1];
          changes := changes[|changes| - 1 := ChangeRange(back.first, i)];
        }
      } else {
        CoversFurther(ops, changes, i, i + 1);
      }
    }
  }

  lemma NoRanges(ops: seq<EditOp>, gap: nat)
    ensures Ranges(ops, [], gap) && Covers(ops, [], 0)
  {
  }

  // Between two ranges, numbered k - 1 and k, lines are kept.
  lemma KeptBetween(ops: seq<EditOp>, rs: seq<ChangeRange>, gap: nat, k: nat)
    requires Ranges(ops, rs, gap) && Covers(ops, rs, |ops|) && k <= |rs|
    ensures forall p :: (if k > 0 then rs[k - 1].last + 1 else 0) <= p < (if k < |rs| then rs[k].first else |ops|) ==> ops[p].Equal?
  {
    hide *;
    if k < |rs| {
      RangesAscend(ops, rs, gap, k, k);
    }
    forall p | (if k > 0 then rs[k - 1].last + 1 else 0) <= p < (if k < |rs| then rs[k].first else |ops|)
      ensures ops[p].Equal?
    {
      NotWithin(ops, rs, gap, k, p);
    }
  }

  lemma NotWithin(ops: seq<EditOp>, rs: seq<ChangeRange>, gap: nat, k: nat, p: nat)
    requires Ranges(ops, rs, gap) && Covers(ops, rs, |ops|) && k <= |rs| && p < |ops|
    requires k > 0 ==> rs[k - 1].last < p
    requires k < |rs| ==> p < rs[k].first
    ensures ops[p].Equal?
  {
    hide *;
    if !ops[p].Equal? {
      var j := CoveringRange(ops, rs, |ops|, p);
      RangesAscend(ops, rs, gap, j, if j < k then k - 1 else k);
    }
  }

  lemma CoveringRange(ops: seq<EditOp>, rs: seq<ChangeRange>, upTo: nat, p: nat) returns (k: nat)
    requires Covers(ops, rs, upTo) && p < upTo <= |ops| && !ops[p].Equal?
    ensures k < |rs| && rs[k].first <= p <= rs[k].last
  {
    k :| 0 <= k < |rs| && Within(rs[k], p);
  }

  lemma RangesAscend(ops: seq<EditOp>, rs: seq<ChangeRange>, gap: nat, j: nat, k: nat)
    requires Ranges(ops, rs, gap) && j < |rs| && k < |rs|
    ensures j <= k ==> rs[j].first <= rs[k].first && rs[j].last <= rs[k].last
    ensures k <= j ==> rs[k].first <= rs[j].first
    ensures rs[k].first <= rs[k].last < |ops|
    ensures j < k ==> rs[j].last + gap < rs[k].first
  {
    assert RangeOf(ops, rs[j]) && RangeOf(ops, rs[k]);
  }

  // How far apart the hunks are: twice the context, and never without a kept line between them.
  function Spacing(context: nat): nat {
    if context == 0 then 1 else 2 * context
  }

  lemma SpacingMeans(context: nat)
    ensures Spacing(context) == if context == 0 then 1 else 2 * context
  {
  }

  // Ranges whose contexts would touch become one.
  method MergeChanges(ops: seq<EditOp>, changes: seq<ChangeRange>, context: nat) returns (merged: seq<ChangeRange>)
    requires changes != [] && Ranges(ops, changes, 1) && Covers(ops, changes, |ops|) && AllDense(ops, changes, 1)
    ensures merged != [] && Ranges(ops, merged, Spacing(context)) && Covers(ops, merged, |ops|)
    ensures AllDense(ops, merged, Spacing(context))
  {
    hide *;
    SpacingMeans(context);
    FirstRange(ops, changes, Spacing(context));
    DenseAt(ops, changes, 1, 0, Spacing(context));
    NoneDense(ops, Spacing(context));
    AllDenseAppend(ops, [], Spacing(context), changes[0]);
    assert [] + [changes[0]] == [changes[0]];
    merged := [changes[0]];
    for i := 1 to |changes|
      invariant merged != [] && merged[|merged| - 1].last == changes[i - 1].last
      invariant Ranges(ops, merged, Spacing(context)) && AllDense(ops, merged, Spacing(context))
      invariant changes[i - 1].last < |ops| && Covers(ops, merged, changes[i - 1].last + 1)
    {
      var back := merged[|merged| - 1];
      NextRange(ops, changes, merged, i);
      DenseAt(ops, changes, 1, i, Spacing(context));
      if changes[i].first - back.last <= 2 * context {
        ExtendLast(ops, merged, Spacing(context), changes[i].last, changes[i].first);
        AllDenseJoined(ops, merged, Spacing(context), changes[i]);
        merged := merged[|merged| - 1 := ChangeRange(back.first, changes[i].last)];
      } else {
        AppendRange(ops, merged, Spacing(context), changes[i]);
        AllDenseAppend(ops, merged, Spacing(context), changes[i]);
        merged := merged + [changes[i]];
      }
    }
    KeptBetween(ops, changes, 1, |changes|);
    CoversFurther(ops, merged, changes[|changes| - 1].last + 1, |ops|);
  }

  lemma FirstRange(ops: seq<EditOp>, rs: seq<ChangeRange>, gap: nat)
    requires rs != [] && Ranges(ops, rs, 1) && Covers(ops, rs, |ops|)
    ensures Ranges(ops, [rs[0]], gap) && rs[0].last < |ops| && Covers(ops, [rs[0]], rs[0].last + 1)
  {
    hide Covers, RangeOf;
    assert RangeOf(ops, rs[0]);
    RangesAscend(ops, rs, 1, 0, 0);
    KeptBetween(ops, rs, 1, 0);
    NoRanges(ops, gap);
    CoversFurther(ops, [], 0, rs[0].first);
    AppendRange(ops, [], gap, rs[0]);
    assert [] + [rs[0]] == [rs[0]];
  }

  lemma NextRange(ops: seq<EditOp>, rs: seq<ChangeRange>, merged: seq<ChangeRange>, i: nat)
    requires 0 < i < |rs| && Ranges(ops, rs, 1) && Covers(ops, rs, |ops|)
    requires rs[i - 1].last < |ops| && Covers(ops, merged, rs[i - 1].last + 1)
    ensures RangeOf(ops, rs[i]) && rs[i - 1].last + 1 < rs[i].first <= rs[i].last < |ops|
    ensures !ops[rs[i].last].Equal? && Covers(ops, merged, rs[i].first)
  {
    hide Covers, Within;
    assert RangeOf(ops, rs[i]);
    KeptBetween(ops, rs, 1, i);
    RangesAscend(ops, rs, 1, i - 1, i);
    CoversFurther(ops, merged, rs[i - 1].last + 1, rs[i].first);
  }

  // ----- Hunks -----

  /** The hunk holds the operations of the span. Each side's count is the number of lines it uses;
      its start is the number of lines used before, plus one unless the count is zero. */
  ghost predicate HunkAt(ops: seq<EditOp>, h: Hunk, s: Span) {
    && s.lo < s.hi <= |ops| && h.ops == ops[s.lo..s.hi]
    && h.oldCount == OldUsed(h.ops) && h.newCount == NewUsed(h.ops)
    && h.oldStart == OldUsed(ops[..s.lo]) + (if h.oldCount > 0 then 1 else 0)
    && h.newStart == NewUsed(ops[..s.lo]) + (if h.newCount > 0 then 1 else 0)
  }

  // The span is a range of changes with up to context kept lines on each side, as many as there are.
  ghost predicate WithContext(ops: seq<EditOp>, s: Span, r: ChangeRange, context: nat) {
    && RangeOf(ops, r)
    && s.lo == (if r.first < context then 0 else r.first - context)
    && s.hi == (if r.last + context + 1 > |ops| then |ops| else r.last + context + 1)
    && (forall p :: s.lo <= p < r.first ==> ops[p].Equal?)
    && (forall p :: r.last < p < s.hi ==> ops[p].Equal?)
  }

  ghost predicate SpansInOrder(spans: seq<Span>, context: nat) {
    forall j, k :: 0 <= j < k < |spans| ==> spans[j].hi <= spans[k].lo && (context == 0 ==> spans[j].hi < spans[k].lo)
  }

  // The hunks of a script: in order, apart, with every change in one of them, and none with so many
  // kept lines in a row between two changes that it could be two hunks.
  ghost predicate HunksOf(ops: seq<EditOp>, context: nat, hunks: seq<Hunk>, spans: seq<Span>, ranges: seq<ChangeRange>) {
    && |hunks| == |spans| == |ranges|
    && (forall k :: 0 <= k < |hunks| ==> HunkAt(ops, hunks[k], spans[k]))
    && (forall k :: 0 <= k < |hunks| ==> WithContext(ops, spans[k], ranges[k], context))
    && SpansInOrder(spans, context)
    && Covers(ops, ranges, |ops|) && AllDense(ops, ranges, Spacing(context))
  }

  method BuildHunks<T>(ghost a: seq<T>, ghost b: seq<T>, ops: seq<EditOp>, context: nat)
    returns (hunks: seq<Hunk>, ghost spans: seq<Span>, ghost ranges: seq<ChangeRange>)
    requires ValidScript(a, b, ops)
    ensures HunksOf(ops, context, hunks, spans, ranges)
  {
    hide *;
    hunks, spans, ranges := [], [], [];
    var changes := FindChanges(ops);
    if changes == [] {
      NoHunks(ops, context, changes);
      return;
    }
    var merged := MergeChanges(ops, changes, context);
    ranges := merged;
    for k := 0 to |merged|
      invariant |hunks| == |spans| == k
      invariant forall j :: 0 <= j < k ==> HunkAt(ops, hunks[j], spans[j])
      invariant forall j :: 0 <= j < k ==> WithContext(ops, spans[j], merged[j], context)
    {
      var range := merged[k];
      var lo := if range.first < context then 0 else range.first - context;
      var hi := if range.last + context + 1 > |ops| then |ops| else range.last + context + 1;
      SpanOfRange(ops, merged, context, k);
      var h := MakeHunk(a, b, ops, lo, hi);
      hunks := hunks + [h];
      spans := spans + [Span(lo, hi)];
    }
    SpansApart(ops, merged, context, spans);
    AreHunks(ops, context, hunks, spans, merged);
  }

  lemma NoHunks(ops: seq<EditOp>, context: nat, changes: seq<ChangeRange>)
    requires changes == [] && Covers(ops, changes, |ops|)
    ensures HunksOf(ops, context, [], [], [])
  {
  }

  lemma AreHunks(ops: seq<EditOp>, context: nat, hunks: seq<Hunk>, spans: seq<Span>, ranges: seq<ChangeRange>)
    requires |hunks| == |spans| == |ranges|
    requires forall k :: 0 <= k < |hunks| ==> HunkAt(ops, hunks[k], spans[k])
    requires forall k :: 0 <= k < |hunks| ==> WithContext(ops, spans[k], ranges[k], context)
    requires SpansInOrder(spans, context) && Covers(ops, ranges, |ops|) && AllDense(ops, ranges, Spacing(context))
    ensures HunksOf(ops, context, hunks, spans, ranges)
  {
    hide HunkAt, WithContext, SpansInOrder, Covers, AllDense;
  }

  // ----- There is one way only to put the changes into hunks -----

  lemma RangesOfHunks(ops: seq<EditOp>, context: nat, hunks: seq<Hunk>, spans: seq<Span>, ranges: seq<ChangeRange>)
    requires HunksOf(ops, context, hunks, spans, ranges)
    ensures Ranges(ops, ranges, Spacing(context))
  {
    hide Covers, AllDense;
    forall k | 0 <= k < |ranges| ensures RangeOf(ops, ranges[k]) {
      assert WithContext(ops, spans[k], ranges[k], context);
    }
    forall j, k | 0 <= j < k < |ranges| ensures ranges[k].first - ranges[j].last > Spacing(context) {
      assert WithContext(ops, spans[j], ranges[j], context) && WithContext(ops, spans[k], ranges[k], context);
      assert HunkAt(ops, hunks[k], spans[k]) && HunkAt(ops, hunks[j], spans[j]);
    }
  }

  // The k-th range of one way begins no later, and ends no later, than that of the other.
  lemma RangeNoLater(ops: seq<EditOp>, gap: nat, rs: seq<ChangeRange>, rs': seq<ChangeRange>, k: nat)
    requires Ranges(ops, rs, gap) && Covers(ops, rs, |ops|) && AllDense(ops, rs, gap)
    requires Ranges(ops, rs', gap) && Covers(ops, rs', |ops|) && AllDense(ops, rs', gap)
    requires k <= |rs| && k < |rs'| && rs[..k] == rs'[..k]
    ensures k < |rs| && rs[k].first <= rs'[k].first
    ensures rs[k].first == rs'[k].first ==> rs'[k].last <= rs[k].last
  {
    hide Ranges, Covers, Dense;
    RangesAscend(ops, rs', gap, k, k);
    ChangeAtFirst(ops, rs', gap, k);
    var j := CoveringRange(ops, rs, |ops|, rs'[k].first);
    if j < k {
      assert rs[..k][j] == rs'[..k][j];
      RangesAscend(ops, rs', gap, j, k);
    }
    RangesAscend(ops, rs, gap, k, j);
    if rs[k].first == rs'[k].first && rs[k].last < rs'[k].last {
      RangesAscend(ops, rs, gap, k, k);
      assert Dense(ops, rs'[k], gap);
      var q := NextChange(ops, rs'[k], gap, rs[k].last);
      var m := CoveringRange(ops, rs, |ops|, q);
      RangesAscend(ops, rs, gap, m, k);
      RangesAscend(ops, rs, gap, k, m);
    }
  }

  lemma ChangeAtFirst(ops: seq<EditOp>, rs: seq<ChangeRange>, gap: nat, k: nat)
    requires Ranges(ops, rs, gap) && k < |rs|
    ensures rs[k].first <= rs[k].last < |ops| && !ops[rs[k].first].Equal?
  {
    assert RangeOf(ops, rs[k]);
  }

  lemma NextChange(ops: seq<EditOp>, r: ChangeRange, gap: nat, p: int) returns (q: nat)
    requires Dense(ops, r, gap) && 0 <= r.first <= p < r.last
    ensures p < q <= p + gap && q <= r.last < |ops| && !ops[q].Equal?
  {
    assert HasNext(ops, r, gap, p);
    q :| ChangeAfter(ops, r, gap, p, q);
  }

  lemma {:induction false} OneWay(ops: seq<EditOp>, gap: nat, rs: seq<ChangeRange>, rs': seq<ChangeRange>, k: nat)
    requires Ranges(ops, rs, gap) && Covers(ops, rs, |ops|) && AllDense(ops, rs, gap)
    requires Ranges(ops, rs', gap) && Covers(ops, rs', |ops|) && AllDense(ops, rs', gap)
    requires k <= |rs| && k <= |rs'| && rs[..k] == rs'[..k]
    ensures rs == rs'
    decreases |rs| - k
  {
    hide Ranges, Covers, AllDense;
    if k < |rs'| {
      RangeNoLater(ops, gap, rs, rs', k);
    }
    if k < |rs| {
      RangeNoLater(ops, gap, rs', rs, k);
      assert rs[k] == rs'[k];
      assert rs[..k + 1] == rs[..k] + [rs[k]] && rs'[..k + 1] == rs'[..k] + [rs'[k]];
      OneWay(ops, gap, rs, rs', k + 1);
    } else {
      assert rs == rs[..k] && rs' == rs'[..k];
    }
  }

  /** A script and a number of context lines determine the hunks. */
  lemma HunksDetermined(ops: seq<EditOp>, context: nat, hunks: seq<Hunk>, spans: seq<Span>, ranges: seq<ChangeRange>,
                        hunks': seq<Hunk>, spans': seq<Span>, ranges': seq<ChangeRange>)
    requires HunksOf(ops, context, hunks, spans, ranges) && HunksOf(ops, context, hunks', spans', ranges')
    ensures hunks == hunks' && spans == spans' && ranges == ranges'
  {
    RangesOfHunks(ops, context, hunks, spans, ranges);
    RangesOfHunks(ops, context, hunks', spans', ranges');
    OneWay(ops, Spacing(context), ranges, ranges', 0);
    hide Covers, AllDense, Ranges, WithContext, HunkAt, SpansInOrder;
    forall k | 0 <= k < |hunks| ensures spans[k] == spans'[k] && hunks[k] == hunks'[k] {
      RangeDetermines(ops, context, hunks[k], spans[k], ranges[k], hunks'[k], spans'[k]);
    }
  }

  lemma RangeDetermines(ops: seq<EditOp>, context: nat, h: Hunk, s: Span, r: ChangeRange, h': Hunk, s': Span)
    requires WithContext(ops, s, r, context) && WithContext(ops, s', r, context) && HunkAt(ops, h, s) && HunkAt(ops, h', s')
    ensures s == s' && h == h'
  {
  }

  lemma SpanOfRange(ops: seq<EditOp>, rs: seq<ChangeRange>, context: nat, k: nat)
    requires Ranges(ops, rs, Spacing(context)) && Covers(ops, rs, |ops|) && k < |rs|
    ensures var s := Span(if rs[k].first < context then 0 else rs[k].first - context,
                          if rs[k].last + context + 1 > |ops| then |ops| else rs[k].last + context + 1);
            s.lo < s.hi <= |ops| && WithContext(ops, s, rs[k], context)
  {
    hide Covers, Within;
    assert RangeOf(ops, rs[k]);
    var s := Span(if rs[k].first < context then 0 else rs[k].first - context,
                  if rs[k].last + context + 1 > |ops| then |ops| else rs[k].last + context + 1);
    KeptBetween(ops, rs, Spacing(context), k);
    KeptBetween(ops, rs, Spacing(context), k + 1);
    if k > 0 {
      RangesAscend(ops, rs, Spacing(context), k - 1, k);
    }
    if k + 1 < |rs| {
      RangesAscend(ops, rs, Spacing(context), k, k + 1);
    }
  }

  lemma SpansApart(ops: seq<EditOp>, rs: seq<ChangeRange>, context: nat, spans: seq<Span>)
    requires Ranges(ops, rs, Spacing(context)) && |spans| == |rs|
    requires forall k :: 0 <= k < |rs| ==> WithContext(ops, spans[k], rs[k], context)
    ensures SpansInOrder(spans, context)
  {
    forall j, k | 0 <= j < k < |spans| ensures spans[j].hi <= spans[k].lo && (context == 0 ==> spans[j].hi < spans[k].lo) {
      TwoSpansApart(ops, rs, context, spans[j], spans[k], j, k);
    }
  }

  lemma TwoSpansApart(ops: seq<EditOp>, rs: seq<ChangeRange>, context: nat, s: Span, t: Span, j: nat, k: nat)
    requires Ranges(ops, rs, Spacing(context)) && j < k < |rs|
    requires WithContext(ops, s, rs[j], context) && WithContext(ops, t, rs[k], context)
    ensures s.hi <= t.lo && (context == 0 ==> s.hi < t.lo)
  {
    hide Ranges;
    RangesAscend(ops, rs, Spacing(context), j, k);
  }

  /** One hunk: its counts, and its starts from its first line of each side or, for a side without
      lines, from the lines before. */
  method MakeHunk<T>(ghost a: seq<T>, ghost b: seq<T>, ops: seq<EditOp>, lo: nat, hi: nat) returns (h: Hunk)
    requires ValidScript(a, b, ops) && lo < hi <= |ops|
    ensures HunkAt(ops, h, Span(lo, hi))
  {
    hide *;
    UsedStart(ops, lo);
    var oldStart, oldCount, newStart, newCount := 0, 0, 0, 0;
    var firstOld, firstNew := true, true;
    for i := lo to hi
      invariant oldCount == OldUsed(ops[lo..i]) && newCount == NewUsed(ops[lo..i])
      invariant firstOld <==> oldCount == 0
      invariant firstNew <==> newCount == 0
      invariant !firstOld ==> oldStart == OldUsed(ops[..lo]) + 1
      invariant !firstNew ==> newStart == NewUsed(ops[..lo]) + 1
      invariant oldStart >= 0 && newStart >= 0
    {
      var op := ops[i];
      PathAt(a, b, ops, i);
      UsedNext(ops, lo, i);
      UsedSplit(ops, lo, i);
      match op {
        case Equal(x, y) =>
          if firstOld {
            oldStart := x + 1;
            firstOld := false;
          }
          if firstNew {
            newStart := y + 1;
            firstNew := false;
          }
          oldCount := oldCount + 1;
          newCount := newCount + 1;
        case Delete(x) =>
          if firstOld {
            oldStart := x + 1;
            firstOld := false;
          }
          oldCount := oldCount + 1;
        case Insert(y) =>
          if firstNew {
            newStart := y + 1;
            firstNew := false;
          }
          newCount := newCount + 1;
      }
    }
    if firstOld {
      oldStart := LastOldBefore(a, b, ops, lo);
    }
    if firstNew {
      newStart := LastNewBefore(a, b, ops, lo);
    }
    h := Hunk(oldStart, oldCount, newStart, newCount, ops[lo..hi]);
    IsHunk(ops, h, Span(lo, hi));
  }

  lemma UsedStart(ops: seq<EditOp>, lo: nat)
    requires lo <= |ops|
    ensures OldUsed(ops[lo..lo]) == 0 && NewUsed(ops[lo..lo]) == 0
  {
  }

  lemma IsHunk(ops: seq<EditOp>, h: Hunk, s: Span)
    requires s.lo < s.hi <= |ops| && h.ops == ops[s.lo..s.hi]
    requires h.oldCount == OldUsed(h.ops) && h.newCount == NewUsed(h.ops)
    requires h.oldStart == OldUsed(ops[..s.lo]) + (if h.oldCount > 0 then 1 else 0)
    requires h.newStart == NewUsed(ops[..s.lo]) + (if h.newCount > 0 then 1 else 0)
    ensures HunkAt(ops, h, s)
  {
  }

  // The number, from 1, of the last old line before a position of the script; 0 if there is none.
  method LastOldBefore<T>(ghost a: seq<T>, ghost b: seq<T>, ops: seq<EditOp>, lo: nat) returns (start: nat)
    requires ValidScript(a, b, ops) && lo <= |ops|
    ensures start == OldUsed(ops[..lo])
  {
    hide *;
    start := 0;
    var i: int := lo - 1;
    while i >= 0
      invariant -1 <= i < lo && OldUsed(ops[..i + 1]) == OldUsed(ops[..lo])
      decreases i
    {
      PathAt(a, b, ops, i);
      UsedNext(ops, 0, i);
      assert ops[0..i] == ops[..i] && ops[0..i + 1] == ops[..i + 1];
      if !ops[i].Insert? {
        start := ops[i].oldIdx + 1;
        return;
      }
      i := i - 1;
    }
    UsedStart(ops, 0);
    assert ops[0..0] == ops[..0];
  }

  method LastNewBefore<T>(ghost a: seq<T>, ghost b: seq<T>, ops: seq<EditOp>, lo: nat) returns (start: nat)
    requires ValidScript(a, b, ops) && lo <= |ops|
    ensures start == NewUsed(ops[..lo])
  {
    hide *;
    start := 0;
    var i: int := lo - 1;
    while i >= 0
      invariant -1 <= i < lo && NewUsed(ops[..i + 1]) == NewUsed(ops[..lo])
      decreases i
    {
      PathAt(a, b, ops, i);
      UsedNext(ops, 0, i);
      assert ops[0..i] == ops[..i] && ops[0..i + 1] == ops[..i + 1];
      if !ops[i].Delete? {
        start := ops[i].newIdx + 1;
        return;
      }
      i := i - 1;
    }
    UsedStart(ops, 0);
    assert ops[0..0] == ops[..0];
  }
}
