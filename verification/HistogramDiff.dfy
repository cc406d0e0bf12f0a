/** The histogram diff: splits the files at a block of equal lines around the rarest common line
    and recurses on both sides of it. */
module HistogramDiff {
  import opened EditScript
  import opened Myers
  import opened Trim
  import opened HistogramBlocks
  import opened HistogramScan

  const MAX_RECURSION := 1024

  // ----- The splitting block -----

  // The best block so far and its rarest line; none yet is kept as a threshold out of reach.
  ghost predicate BestSoFar<T>(a: seq<T>, b: seq<T>, i: int, j: int, len: nat, threshold: nat) {
    if len == 0 then threshold == MAX_CHAIN_LENGTH + 1
    else
      && i >= 0 && j >= 0 && Block(a, b, i, j, len) && Maximal(a, b, i, j, len)
      && Rarest(a, i, len, threshold) && threshold <= MAX_CHAIN_LENGTH
  }

  // No line of b below the given index that a also has is rarer than the threshold.
  ghost predicate NoneRarer<T>(a: seq<T>, b: seq<T>, upTo: nat, threshold: nat) {
    upTo <= |b| &&
    forall q :: 0 <= q < upTo && b[q] in a ==> Count(a, b[q]) > MAX_CHAIN_LENGTH || threshold <= Count(a, b[q])
  }

  // Every common line occurs too often to split at.
  ghost predicate TooFrequent<T>(a: seq<T>, b: seq<T>) {
    forall q :: 0 <= q < |b| && b[q] in a ==> Count(a, b[q]) > MAX_CHAIN_LENGTH
  }

  /** The block to split at: it cannot be extended, and no line that both files have is rarer than
      its rarest one. There is none exactly when every common line occurs too often. */
  method FindBlock<T(==,!new)>(a: seq<T>, b: seq<T>) returns (bestOld: int, bestNew: int, bestLen: nat, ghost threshold: nat)
    ensures BestSoFar(a, b, bestOld, bestNew, bestLen, threshold)
    ensures NoneRarer(a, b, |b|, threshold) && SearchEnds(a, b, threshold, bestLen)
    ensures bestLen > 0 ==> !Overlooked(a, b, bestNew, bestLen)
    ensures bestLen == 0 <==> TooFrequent(a, b)
  {
    hide Count, Occurrences, Block, Maximal, IsHistogram, LookedFrom, Reach, Lowest, BestLooked;
    var hist, oldCount := BuildHistogram(a);
    bestOld, bestNew, bestLen := -1, -1, 0;
    var bestThreshold: nat := MAX_CHAIN_LENGTH + 1;
    var j := 0;
    ghost var looked: set<nat> := {};
    NothingLooked(a, b);
    while j < |b|
      invariant 0 <= j <= |b| && Counts(a, oldCount[..])
      invariant BestSoFar(a, b, bestOld, bestNew, bestLen, bestThreshold)
      invariant NoneRarer(a, b, j, bestThreshold)
      invariant BestLooked(a, b, looked, bestThreshold, bestLen)
      invariant bestLen > 0 ==> exists q :: q in looked && bestNew <= q < bestNew + bestLen
      invariant LookedFrom(a, b, 0, MAX_CHAIN_LENGTH + 1).0 == looked + LookedFrom(a, b, j, bestThreshold).0
      invariant LookedFrom(a, b, 0, MAX_CHAIN_LENGTH + 1).1 == LookedFrom(a, b, j, bestThreshold).1
    {
      Entry(hist, a, b[j]);
      LookedNext(a, b, j, bestThreshold);
      if b[j] !in hist || hist[b[j]].count > MAX_CHAIN_LENGTH || hist[b[j]].count > bestThreshold {
        j := j + 1;
      } else {
        var jAdvance;
        ghost var len0, threshold0 := bestLen, bestThreshold;
        bestOld, bestNew, bestLen, bestThreshold, jAdvance :=
          TryPositions(a, b, oldCount, j, hist[b[j]], bestOld, bestNew, bestLen, bestThreshold);
        StillBest(a, b, looked, threshold0, len0, bestThreshold, bestLen, j);
        looked := looked + {j};
        assert j in looked;
        j := j + jAdvance;
      }
    }
    threshold := bestThreshold;
    LookedAtEnd(a, b, j, threshold);
    assert looked + {} == looked;
    SomeCommonIff(a, b, bestOld, bestNew, bestLen, threshold);
  }

  /** If some common line occurs only once in the old file, the longest block around such a line is chosen. */
  lemma CommonOnceIsLongest<T>(a: seq<T>, b: seq<T>, bestOld: int, bestNew: int, bestLen: nat, threshold: nat, q: nat)
    requires BestSoFar(a, b, bestOld, bestNew, bestLen, threshold) && NoneRarer(a, b, |b|, threshold)
    requires SearchEnds(a, b, threshold, bestLen)
    requires q < |b| && b[q] in a && Count(a, b[q]) == 1
    ensures bestLen > 0 && threshold == 1 && LongestRare(a, b, threshold, bestLen)
  {
    hide Count, SearchEnds, LongestRare, Maximal;
    assert threshold <= Count(a, b[q]);
    RarestOccurs(a, bestOld, bestLen, threshold);
    UniqueIsLongest(a, b, threshold, bestLen);
  }

  lemma RarestOccurs<T>(a: seq<T>, i: nat, len: nat, low: nat)
    requires len > 0 && i + len <= |a| && Rarest(a, i, len, low)
    ensures low >= 1
  {
    hide Count;
    var p :| i <= p < i + len && Count(a, a[p]) == low;
    OccurrencesAre(a, a[p]);
  }

  lemma NothingLooked<T>(a: seq<T>, b: seq<T>)
    ensures BestLooked(a, b, {}, MAX_CHAIN_LENGTH + 1, 0)
  {
  }

  lemma LookedAtEnd<T>(a: seq<T>, b: seq<T>, j: nat, threshold: nat)
    requires j >= |b|
    ensures LookedFrom(a, b, j, threshold) == ({}, threshold)
  {
  }

  lemma Entry<T(!new)>(hist: map<T, HistEntry>, a: seq<T>, line: T)
    requires IsHistogram(hist, a)
    ensures if line in hist then hist[line] == HistEntry(Count(a, line), Occurrences(a, line))
            else line !in a
    ensures line in hist ==> line in a
  {
  }

  lemma SomeCommonIff<T>(a: seq<T>, b: seq<T>, i: int, j: int, len: nat, threshold: nat)
    requires BestSoFar(a, b, i, j, len, threshold) && NoneRarer(a, b, |b|, threshold)
    ensures len == 0 <==> forall q :: 0 <= q < |b| && b[q] in a ==> Count(a, b[q]) > MAX_CHAIN_LENGTH
  {
    hide Count;
    if len > 0 {
      var p :| i <= p < i + len && Count(a, a[p]) == threshold;
      var q := p - i + j;
      assert a[p] == a[i..i + len][p - i] == b[j..j + len][p - i] == b[q];
      assert b[q] in a;
    }
  }

  // A block tried: its lines are not rarer than its rarest.
  lemma NoneRarerNext<T>(a: seq<T>, b: seq<T>, i: nat, j: nat, len: nat, minOcc: nat,
                         upTo: nat, threshold: nat, upTo': nat, threshold': nat)
    requires Block(a, b, i, j, len) && i + len <= |a| && Rarest(a, i, len, minOcc)
    requires NoneRarer(a, b, upTo, threshold) && j <= upTo
    requires upTo' == upTo || upTo' == j + len
    requires threshold' <= threshold && threshold' <= minOcc
    ensures NoneRarer(a, b, upTo', threshold')
  {
    hide Count;
    forall q | upTo <= q < j + len ensures minOcc <= Count(a, b[q]) {
      assert a[q - j + i] == a[i..i + len][q - j] == b[j..j + len][q - j] == b[q];
    }
  }

  lemma BetterBlock<T>(a: seq<T>, b: seq<T>, i: nat, j: nat, len: nat, minOcc: nat,
                       i0: int, j0: int, len0: nat, threshold: nat)
    requires len > 0 && Block(a, b, i, j, len) && i + len <= |a| && j + len <= |b|
    requires Maximal(a, b, i, j, len) && Rarest(a, i, len, minOcc)
    requires BestSoFar(a, b, i0, j0, len0, threshold)
    requires minOcc < threshold || (minOcc == threshold && len0 < len && len0 > 0)
    ensures BestSoFar(a, b, i, j, len, minOcc)
  {
  }

  lemma TooRare<T>(a: seq<T>, b: seq<T>, i0: int, j0: int, len0: nat, threshold: nat)
    requires BestSoFar(a, b, i0, j0, len0, threshold)
    ensures len0 == 0 ==> threshold == MAX_CHAIN_LENGTH + 1
  {
  }

  // Every occurrence of a line holds it, and it is no rarer than itself.
  lemma AtPosition<T>(a: seq<T>, line: T, i: nat, len: nat, minOcc: nat, p: nat)
    requires p in Occurrences(a, line)
    ensures p < |a| && a[p] == line
    ensures i <= p < i + len <= |a| && Rarest(a, i, len, minOcc) ==> minOcc <= Count(a, line)
  {
    OccurrencesAre(a, line);
  }

  /** Tries every position of the line b[j] in a, and says how far past j the blocks reach. */
  method TryPositions<T(==)>(a: seq<T>, b: seq<T>, oldCount: array<nat>, j: nat, entry: HistEntry,
                             old0: int, new0: int, len0: nat, threshold0: nat)
    returns (bestOld: int, bestNew: int, bestLen: nat, bestThreshold: nat, jAdvance: nat)
    requires j < |b| && b[j] in a && Counts(a, oldCount[..])
    requires entry == HistEntry(Count(a, b[j]), Occurrences(a, b[j])) && entry.count <= MAX_CHAIN_LENGTH
    requires BestSoFar(a, b, old0, new0, len0, threshold0) && NoneRarer(a, b, j, threshold0)
    ensures BestSoFar(a, b, bestOld, bestNew, bestLen, bestThreshold)
    ensures 0 < jAdvance && NoneRarer(a, b, j + jAdvance, bestThreshold)
    ensures (bestNew == new0 && bestLen == len0) || 0 <= bestNew <= j < bestNew + bestLen
    ensures Count(a, b[j]) == |Occurrences(a, b[j])|
    ensures jAdvance == Reach(a, b, j, Count(a, b[j])) && bestThreshold == Lowest(a, b, j, Count(a, b[j]), threshold0)
    ensures bestThreshold < threshold0 || (bestThreshold == threshold0 && len0 <= bestLen)
    ensures forall p: nat :: p < |a| && a[p] == b[j] ==> NotBetter(a, b, p, j, bestThreshold, bestLen)
  {
    hide *;
    CountIs(a, b[j]);
    NoneTried(a, b, j, threshold0);
    SomePosition(a, b[j]);
    bestOld, bestNew, bestLen, bestThreshold := old0, new0, len0, threshold0;
    jAdvance := 1;
    for pi := 0 to |entry.positions|
      invariant BestSoFar(a, b, bestOld, bestNew, bestLen, bestThreshold)
      invariant 0 < jAdvance && NoneRarer(a, b, if pi > 0 then j + jAdvance else j, bestThreshold)
      invariant pi == 0 ==> jAdvance == 1
      invariant jAdvance == Reach(a, b, j, pi) && bestThreshold == Lowest(a, b, j, pi, threshold0)
      invariant bestThreshold < threshold0 || (bestThreshold == threshold0 && len0 <= bestLen)
      invariant Tried(a, b, j, pi, bestThreshold, bestLen)
      invariant (bestNew == new0 && bestLen == len0) || 0 <= bestNew <= j < bestNew + bestLen
    {
      var oi := entry.positions[pi];
      AtPosition(a, b[j], 0, 0, 0, oi);
      var back, fwd, minOcc := ExtendBlock(a, b, oldCount, oi, j, entry.count);
      var blockLen := back + 1 + fwd;
      AtPosition(a, b[j], oi - back, blockLen, minOcc, oi);
      TooRare(a, b, bestOld, bestNew, bestLen, bestThreshold);
      OneTried(a, b, j, pi, oi, back, fwd, minOcc, bestThreshold, bestLen, threshold0);
      ghost var upTo, threshold := if pi > 0 then j + jAdvance else j, bestThreshold;
      if fwd + 1 > jAdvance {
        jAdvance := fwd + 1;
      }
      if minOcc < bestThreshold || (minOcc == bestThreshold && blockLen > bestLen) {
        BetterBlock(a, b, oi - back, j - back, blockLen, minOcc, bestOld, bestNew, bestLen, bestThreshold);
        bestThreshold := minOcc;
        bestOld := oi - back;
        bestNew := j - back;
        bestLen := blockLen;
      }
      NoneRarerNext(a, b, oi - back, j - back, blockLen, minOcc, upTo, threshold, j + jAdvance, bestThreshold);
    }
    AllTried(a, b, j, bestThreshold, bestLen);
  }

  // No block through the first k occurrences is better.
  ghost predicate Tried<T>(a: seq<T>, b: seq<T>, j: nat, k: nat, threshold: nat, len: nat)
    requires j < |b| && k <= |Occurrences(a, b[j])|
  {
    forall p: nat :: p in Occurrences(a, b[j])[..k] && p < |a| && a[p] == b[j] ==> NotBetter(a, b, p, j, threshold, len)
  }

  lemma NoneTried<T>(a: seq<T>, b: seq<T>, j: nat, threshold: nat)
    requires j < |b|
    ensures forall len: nat :: Tried(a, b, j, 0, threshold, len)
    ensures Reach(a, b, j, 0) == 1 && Lowest(a, b, j, 0, threshold) == threshold
  {
  }

  // Trying one more occurrence, whose block is chosen if it is better.
  lemma OneTried<T>(a: seq<T>, b: seq<T>, j: nat, k: nat, oi: nat, back: nat, fwd: nat, minOcc: nat, threshold: nat, len: nat,
                    threshold0: nat)
    requires j < |b| && k < |Occurrences(a, b[j])| && oi == Occurrences(a, b[j])[k] < |a| && a[oi] == b[j]
    requires back <= oi && back <= j && oi + fwd < |a| && j + fwd < |b|
    requires Block(a, b, oi - back, j - back, back + 1 + fwd) && Maximal(a, b, oi - back, j - back, back + 1 + fwd)
    requires Rarest(a, oi - back, back + 1 + fwd, minOcc)
    requires Tried(a, b, j, k, threshold, len) && threshold == Lowest(a, b, j, k, threshold0)
    ensures var better := minOcc < threshold || (minOcc == threshold && back + 1 + fwd > len);
            Tried(a, b, j, k + 1, if better then minOcc else threshold, if better then back + 1 + fwd else len)
    ensures Reach(a, b, j, k + 1) == if fwd + 1 > Reach(a, b, j, k) then fwd + 1 else Reach(a, b, j, k)
    ensures Lowest(a, b, j, k + 1, threshold0) == if minOcc < threshold then minOcc else threshold
  {
    hide Block, Maximal, Rarest, Least, Forward, Backward, Occurrences;
    ThroughPair(a, b, oi - back, j - back, back + 1 + fwd, back);
    RarestIsLeast(a, oi - back, back + 1 + fwd, minOcc);
    assert Occurrences(a, b[j])[..k + 1] == Occurrences(a, b[j])[..k] + [oi];
  }

  lemma AllTried<T>(a: seq<T>, b: seq<T>, j: nat, threshold: nat, len: nat)
    requires j < |b| && Tried(a, b, j, |Occurrences(a, b[j])|, threshold, len)
    ensures forall p: nat :: p < |a| && a[p] == b[j] ==> NotBetter(a, b, p, j, threshold, len)
  {
    hide NotBetter;
    OccurrencesAre(a, b[j]);
    assert Occurrences(a, b[j])[..|Occurrences(a, b[j])|] == Occurrences(a, b[j]);
  }

  lemma SomePosition<T>(a: seq<T>, line: T)
    requires line in a
    ensures Occurrences(a, line) != [] && Count(a, line) > 0
  {
    OccurrencesAre(a, line);
  }

  // ----- The diff -----

  // The block that the interior behind prefix, up to u and v, is split at: one around a rarest common
  // line, as long as any that the search does not overlook.
  ghost predicate SplitAt<T(!new)>(s: seq<T>, t: seq<T>, i: nat, j: nat, len: nat) {
    exists threshold: nat ::
      len > 0 && BestSoFar(s, t, i, j, len, threshold) && NoneRarer(s, t, |t|, threshold)
      && SearchEnds(s, t, threshold, len) && !Overlooked(s, t, j, len)
  }

  /** What the histogram diff gives at a depth. Files of which one is empty or that are equal have a shortest
      script. Others keep their common head and tail; between these they keep the block they are split at,
      and what is before and behind it is again such a script, one level deeper. Only if all common lines
      are too frequent, or the recursion is too deep, the interior has a shortest script. */
  ghost predicate ByHistogram<T(!new)>(a: seq<T>, b: seq<T>, depth: nat, ops: seq<EditOp>)
    decreases |a| + |b|, 1
  {
    if a == [] || b == [] || a == b then Shortest(a, b, ops)
    else
      exists prefix: nat, suffix: nat ::
        Trimmed(a, b, prefix, suffix) &&
        if Undivided(a, b, prefix, suffix, depth) then AroundShortest(a, b, ops, prefix, suffix)
        else
          exists i: nat, j: nat, len: nat, before, after :: Divided(a, b, depth, ops, prefix, suffix, i, j, len, before, after)
  }

  ghost predicate Undivided<T>(a: seq<T>, b: seq<T>, prefix: nat, suffix: nat, depth: nat)
    requires prefix + suffix <= |a| && prefix + suffix <= |b|
  {
    depth >= MAX_RECURSION || TooFrequent(a[prefix..|a| - suffix], b[prefix..|b| - suffix])
  }

  ghost predicate Divided<T(!new)>(a: seq<T>, b: seq<T>, depth: nat, ops: seq<EditOp>, prefix: nat, suffix: nat,
                                   i: nat, j: nat, len: nat, before: seq<EditOp>, after: seq<EditOp>)
    requires prefix + suffix <= |a| && prefix + suffix <= |b|
    decreases |a| + |b|, 0
  {
    var u, v, x, y := |a| - suffix, |b| - suffix, prefix + i, prefix + j;
    && SplitAt(a[prefix..u], b[prefix..v], i, j, len) && len > 0 && x + len <= u && y + len <= v
    && ByHistogram(a[prefix..x], b[prefix..y], depth + 1, before)
    && ByHistogram(a[x + len..u], b[y + len..v], depth + 1, after)
    && ops == Diagonal(0, 0, prefix) + ShiftAll(before, prefix, prefix) + Diagonal(x, y, len)
              + ShiftAll(after, x + len, y + len) + Diagonal(u, v, suffix)
  }

  method HistogramPart<T(==,!new)>(a: seq<T>, b: seq<T>, ops: seq<EditOp>, x: nat, y: nat, u: nat, v: nat, depth: nat)
    returns (r: seq<EditOp>, ghost part: seq<EditOp>)
    requires ScriptTo(a, b, ops, x, y) && x <= u <= |a| && y <= v <= |b|
    ensures ScriptTo(a, b, r, u, v) && r == ops + ShiftAll(part, x, y) && ByHistogram(a[x..u], b[y..v], depth, part)
    decreases u - x + v - y, 1
  {
    hide *;
    r, part := ops, [];
    if u - x > 0 || v - y > 0 {
      var partOps := HistogramScript(a[x..u], b[y..v], depth);
      ScriptToPart(a, b, ops, x, y, partOps, u, v);
      r := AppendShifted(ops, partOps, x, y);
      part := partOps;
    } else {
      EmptyPart(a[x..u], b[y..v], depth);
      assert ops + ShiftAll([], x, y) == ops by {
        NothingShifted(x, y);
      }
    }
  }

  lemma EmptyPart<T(!new)>(a: seq<T>, b: seq<T>, depth: nat)
    requires a == [] && b == []
    ensures ByHistogram(a, b, depth, [])
  {
    OneSided(a, b, []);
    NotSplit(a, b, depth, []);
  }

  method HistogramScript<T(==,!new)>(a: seq<T>, b: seq<T>, depth: nat) returns (ops: seq<EditOp>)
    ensures ValidScript(a, b, ops)
    ensures FreeIfEqual(a, b, ops)
    ensures ByHistogram(a, b, depth, ops)
    decreases |a| + |b|, 0
  {
    hide *;
    var n, m := |a|, |b|;
    if n == 0 {
      ops := AllInserts(m);
      OneSided(a, b, ops);
      NotSplit(a, b, depth, ops);
      return;
    }
    if m == 0 {
      ops := AllDeletes(n);
      OneSided(a, b, ops);
      NotSplit(a, b, depth, ops);
      return;
    }
    var prefix, suffix := TrimCommon(a, b);
    var u, v := n - suffix, m - suffix;
    if u - prefix <= 0 && v - prefix <= 0 {
      ops := EmitWhole(a, b, n, prefix, suffix);
      NoInterior(a, b, prefix, suffix);
      WholeIsShortest(a, b, ops);
      NotSplit(a, b, depth, ops);
      return;
    }
    TrimmedUnequal(a, b, prefix, suffix);
    if depth >= MAX_RECURSION {
      ops := MinimalInterior(a, b, prefix, suffix);
      TrimmedDiffer(a, b, prefix, suffix, ops);
      BlockMissing(a, b, depth, ops, prefix, suffix);
      return;
    }
    var bestOld, bestNew, bestLen, threshold := FindBlock(a[prefix..u], b[prefix..v]);
    if bestLen == 0 {
      ops := MinimalInterior(a, b, prefix, suffix);
      TrimmedDiffer(a, b, prefix, suffix, ops);
      BlockMissing(a, b, depth, ops, prefix, suffix);
      return;
    }
    ops := EmitPrefix(a, b, prefix, suffix);
    BlockInFiles(a, b, prefix, u, v, bestOld, bestNew, bestLen, threshold);
    IsSplit(a[prefix..u], b[prefix..v], bestOld, bestNew, bestLen, threshold);
    ghost var before, after;
    var x, y := prefix + bestOld, prefix + bestNew;
    ops, before := HistogramPart(a, b, ops, prefix, prefix, x, y, depth + 1);
    ScriptToRun(a, b, ops, x, y, bestLen);
    ops := EmitEqual(ops, x, y, bestLen);
    ops, after := HistogramPart(a, b, ops, x + bestLen, y + bestLen, u, v, depth + 1);
    ops := EmitSuffix(a, b, ops, n, m, prefix, suffix);
    TrimmedDiffer(a, b, prefix, suffix, ops);
    BlockKept(a, b, depth, ops, prefix, suffix, bestOld, bestNew, bestLen, before, after);
  }

  lemma NotSplit<T(!new)>(a: seq<T>, b: seq<T>, depth: nat, ops: seq<EditOp>)
    requires (a == [] || b == [] || a == b) && Shortest(a, b, ops)
    ensures ByHistogram(a, b, depth, ops)
  {
    hide Shortest;
  }

  lemma BlockMissing<T(!new)>(a: seq<T>, b: seq<T>, depth: nat, ops: seq<EditOp>, prefix: nat, suffix: nat)
    requires prefix + suffix <= |a| && prefix + suffix <= |b| && Trimmed(a, b, prefix, suffix) && a != [] && b != [] && a != b
    requires AroundShortest(a, b, ops, prefix, suffix)
    requires depth < MAX_RECURSION ==> TooFrequent(a[prefix..|a| - suffix], b[prefix..|b| - suffix])
    ensures ByHistogram(a, b, depth, ops)
  {
    hide AroundShortest, TooFrequent, Divided, Shortest;
  }

  lemma IsSplit<T(!new)>(s: seq<T>, t: seq<T>, i: nat, j: nat, len: nat, threshold: nat)
    requires len > 0 && BestSoFar(s, t, i, j, len, threshold) && NoneRarer(s, t, |t|, threshold)
    requires SearchEnds(s, t, threshold, len) && !Overlooked(s, t, j, len) && (len == 0 <==> TooFrequent(s, t))
    ensures SplitAt(s, t, i, j, len) && !TooFrequent(s, t)
  {
    hide BestSoFar, NoneRarer, SearchEnds, Overlooked, TooFrequent;
  }

  lemma BlockKept<T(!new)>(a: seq<T>, b: seq<T>, depth: nat, ops: seq<EditOp>, prefix: nat, suffix: nat, i: nat, j: nat, len: nat,
                           before: seq<EditOp>, after: seq<EditOp>)
    requires prefix + suffix <= |a| && prefix + suffix <= |b| && Trimmed(a, b, prefix, suffix) && a != [] && b != [] && a != b
    requires depth < MAX_RECURSION && len > 0
    requires var u, v, x, y := |a| - suffix, |b| - suffix, prefix + i, prefix + j;
             && SplitAt(a[prefix..u], b[prefix..v], i, j, len) && !TooFrequent(a[prefix..u], b[prefix..v])
             && x + len <= u && y + len <= v
             && ByHistogram(a[prefix..x], b[prefix..y], depth + 1, before)
             && ByHistogram(a[x + len..u], b[y + len..v], depth + 1, after)
             && ops == Diagonal(0, 0, prefix) + ShiftAll(before, prefix, prefix) + Diagonal(x, y, len)
                       + ShiftAll(after, x + len, y + len) + Diagonal(u, v, suffix)
    ensures ByHistogram(a, b, depth, ops)
  {
    hide SplitAt, TooFrequent, Diagonal, ShiftAll, Shortest, AroundShortest;
    assert Divided(a, b, depth, ops, prefix, suffix, i, j, len, before, after);
  }

  lemma BlockInFiles<T>(a: seq<T>, b: seq<T>, prefix: nat, u: nat, v: nat, i: int, j: int, len: nat, threshold: nat)
    requires prefix <= u <= |a| && prefix <= v <= |b| && len > 0
    requires BestSoFar(a[prefix..u], b[prefix..v], i, j, len, threshold)
    ensures i >= 0 && j >= 0 && prefix + i + len <= u && prefix + j + len <= v
    ensures a[prefix + i..prefix + i + len] == b[prefix + j..prefix + j + len]
  {
    hide Maximal, Rarest;
    SliceOfSlice(a, prefix, u, i, len);
    SliceOfSlice(b, prefix, v, j, len);
  }

  lemma SliceOfSlice<T>(s: seq<T>, from: nat, to: nat, i: nat, len: nat)
    requires from + i + len <= to <= |s|
    ensures s[from..to][i..i + len] == s[from + i..from + i + len]
  {
    var part, whole := s[from..to][i..i + len], s[from + i..from + i + len];
    assert |part| == |whole| == len;
    forall d | 0 <= d < len ensures part[d] == whole[d] {
      assert part[d] == s[from..to][i + d];
    }
  }
}
