/** The lines of the old file by how often they occur, and the blocks of equal lines of two files. */
module HistogramBlocks {
  // ----- The histogram of the old file -----

  // The positions of a line, in order.
  function Occurrences<T(==)>(s: seq<T>, line: T): (r: seq<nat>)
    ensures |r| <= |s|
  {
    if s == [] then []
    else Occurrences(s[..|s| - 1], line) + if s[|s| - 1] == line then [|s| - 1] else []
  }

  ghost function Count<T>(s: seq<T>, line: T): nat {
    |Occurrences(s, line)|
  }

  lemma {:induction false} OccurrencesAre<T>(s: seq<T>, line: T)
    ensures forall p: nat :: p in Occurrences(s, line) <==> p < |s| && s[p] == line
    ensures Count(s, line) > 0 <==> line in s
  {
    if s != [] {
      var init := s[..|s| - 1];
      OccurrencesAre(init, line);
      var r, rest := Occurrences(s, line), Occurrences(init, line);
      forall p: nat
        ensures p in r <==> p < |s| && s[p] == line
      {
        assert p in r <==> p in rest || (s[|s| - 1] == line && p == |s| - 1);
      }
      assert s == init + [s[|s| - 1]];
    }
  }

  datatype HistEntry = HistEntry(count: nat, positions: seq<nat>)

  ghost predicate IsHistogram<T(!new)>(hist: map<T, HistEntry>, s: seq<T>) {
    forall l :: && (l in hist <==> l in s)
                && (if l in hist then hist[l] else HistEntry(0, [])) == HistEntry(Count(s, l), Occurrences(s, l))
  }

  method BuildHistogram<T(==,!new)>(s: seq<T>) returns (hist: map<T, HistEntry>, oldCount: array<nat>)
    ensures IsHistogram(hist, s)
    ensures fresh(oldCount) && Counts(s, oldCount[..])
  {
    hist := map[];
    for i := 0 to |s|
      invariant IsHistogram(hist, s[..i])
    {
      var entry := if s[i] in hist then hist[s[i]] else HistEntry(0, []);
      var hist' := hist[s[i] := HistEntry(entry.count + 1, entry.positions + [i])];
      AddLine(hist, s[..i], s[i]);
      assert s[..i + 1] == s[..i] + [s[i]];
      hist := hist';
    }
    assert s[..|s|] == s;
    oldCount := new nat[|s|];
    for i := 0 to |s|
      invariant forall j :: 0 <= j < i ==> oldCount[j] == Count(s, s[j])
    {
      OccurrencesAre(s, s[i]);
      assert s[i] in hist;
      oldCount[i] := hist[s[i]].count;
    }
  }

  lemma AddLine<T(!new)>(hist: map<T, HistEntry>, s: seq<T>, line: T)
    requires IsHistogram(hist, s)
    ensures var entry := if line in hist then hist[line] else HistEntry(0, []);
            IsHistogram(hist[line := HistEntry(entry.count + 1, entry.positions + [|s|])], s + [line])
  {
    assert (s + [line])[..|s|] == s;
  }

  // ----- The splitting block -----

  // len lines of a from i on equal len lines of b from j on.
  ghost predicate Block<T>(a: seq<T>, b: seq<T>, i: nat, j: nat, len: nat) {
    i + len <= |a| && j + len <= |b| && a[i..i + len] == b[j..j + len]
  }

  // No equal line stands right before or right after the block.
  ghost predicate Maximal<T>(a: seq<T>, b: seq<T>, i: nat, j: nat, len: nat)
    requires i + len <= |a| && j + len <= |b|
  {
    && !(i > 0 && j > 0 && a[i - 1] == b[j - 1])
    && !(i + len < |a| && j + len < |b| && a[i + len] == b[j + len])
  }

  // low is the least number of times a line of the block occurs in a.
  ghost predicate Rarest<T>(a: seq<T>, i: nat, len: nat, low: nat)
    requires i + len <= |a|
  {
    && (forall p :: i <= p < i + len ==> low <= Count(a, a[p]))
    && exists p :: i <= p < i + len && Count(a, a[p]) == low
  }

  ghost predicate Counts<T>(a: seq<T>, oldCount: seq<nat>) {
    |oldCount| == |a| && forall i :: 0 <= i < |a| ==> oldCount[i] == Count(a, a[i])
  }

  /** The whole block of equal lines around a pair of equal ones, and its rarest line. */
  method ExtendBlock<T(==)>(a: seq<T>, b: seq<T>, oldCount: array<nat>, oi: nat, j: nat, count: nat)
    returns (back: nat, fwd: nat, minOcc: nat)
    requires oi < |a| && j < |b| && a[oi] == b[j] && count == Count(a, a[oi]) && Counts(a, oldCount[..])
    ensures back <= oi && back <= j
    ensures Block(a, b, oi - back, j - back, back + 1 + fwd)
    ensures oi + fwd < |a| && j + fwd < |b| && Maximal(a, b, oi - back, j - back, back + 1 + fwd)
    ensures Rarest(a, oi - back, back + 1 + fwd, minOcc)
  {
    hide *;
    back, minOcc := ExtendBack(a, b, oldCount, oi, j, count);
    fwd, minOcc := ExtendForward(a, b, oldCount, oi, j, back, minOcc);
    EndsAreMaximal(a, b, oi - back, j - back, back + 1 + fwd);
  }

  method ExtendBack<T(==)>(a: seq<T>, b: seq<T>, oldCount: array<nat>, oi: nat, j: nat, count: nat)
    returns (back: nat, minOcc: nat)
    requires oi < |a| && j < |b| && a[oi] == b[j] && count == Count(a, a[oi]) && Counts(a, oldCount[..])
    ensures back <= oi && back <= j
    ensures Block(a, b, oi - back, j - back, back + 1) && Rarest(a, oi - back, back + 1, minOcc)
    ensures !(oi - back > 0 && j - back > 0 && a[oi - back - 1] == b[j - back - 1])
  {
    hide *;
    SingleLine(a, b, oi, j);
    back := 0;
    minOcc := count;
    while oi - back - 1 >= 0 && j - back - 1 >= 0 && a[oi - back - 1] == b[j - back - 1]
      invariant back <= oi && back <= j
      invariant Block(a, b, oi - back, j - back, back + 1) && Rarest(a, oi - back, back + 1, minOcc)
      decreases oi - back
    {
      back := back + 1;
      CountAt(a, oldCount[..], oi - back);
      var occ := oldCount[oi - back];
      RarestWider(a, oi - back, back, minOcc, oi - back);
      BlockGrowsBack(a, b, oi - back, j - back, back);
      if occ < minOcc {
        minOcc := occ;
      }
    }
  }

  method ExtendForward<T(==)>(a: seq<T>, b: seq<T>, oldCount: array<nat>, oi: nat, j: nat, back: nat, minOcc0: nat)
    returns (fwd: nat, minOcc: nat)
    requires oi < |a| && j < |b| && back <= oi && back <= j && Counts(a, oldCount[..])
    requires Block(a, b, oi - back, j - back, back + 1) && Rarest(a, oi - back, back + 1, minOcc0)
    ensures oi + fwd < |a| && j + fwd < |b|
    ensures Block(a, b, oi - back, j - back, back + 1 + fwd) && Rarest(a, oi - back, back + 1 + fwd, minOcc)
    ensures !(oi + fwd + 1 < |a| && j + fwd + 1 < |b| && a[oi + fwd + 1] == b[j + fwd + 1])
  {
    hide *;
    fwd := 0;
    minOcc := minOcc0;
    while oi + fwd + 1 < |a| && j + fwd + 1 < |b| && a[oi + fwd + 1] == b[j + fwd + 1]
      invariant oi + fwd < |a| && j + fwd < |b|
      invariant Block(a, b, oi - back, j - back, back + 1 + fwd) && Rarest(a, oi - back, back + 1 + fwd, minOcc)
      decreases |a| - fwd
    {
      fwd := fwd + 1;
      CountAt(a, oldCount[..], oi + fwd);
      var occ := oldCount[oi + fwd];
      RarestWider(a, oi - back, back + fwd, minOcc, oi + fwd);
      BlockGrowsForward(a, b, oi - back, j - back, back + fwd);
      if occ < minOcc {
        minOcc := occ;
      }
    }
  }

  lemma SingleLine<T>(a: seq<T>, b: seq<T>, i: nat, j: nat)
    requires i < |a| && j < |b| && a[i] == b[j]
    ensures Block(a, b, i, j, 1) && Rarest(a, i, 1, Count(a, a[i]))
  {
    hide Count;
    assert a[i..i + 1] == [a[i]] && b[j..j + 1] == [b[j]];
  }

  lemma CountAt<T>(a: seq<T>, oldCount: seq<nat>, i: nat)
    requires Counts(a, oldCount) && i < |a|
    ensures i < |oldCount| && oldCount[i] == Count(a, a[i])
  {
  }

  lemma EndsAreMaximal<T>(a: seq<T>, b: seq<T>, i: nat, j: nat, len: nat)
    requires i + len <= |a| && j + len <= |b|
    requires !(i > 0 && j > 0 && a[i - 1] == b[j - 1])
    requires !(i + len < |a| && j + len < |b| && a[i + len] == b[j + len])
    ensures Maximal(a, b, i, j, len)
  {
  }

  lemma BlockGrowsBack<T>(a: seq<T>, b: seq<T>, i: nat, j: nat, len: nat)
    requires i < |a| && j < |b| && a[i] == b[j] && Block(a, b, i + 1, j + 1, len)
    ensures Block(a, b, i, j, len + 1)
  {
    assert a[i..i + len + 1] == [a[i]] + a[i + 1..i + 1 + len];
    assert b[j..j + len + 1] == [b[j]] + b[j + 1..j + 1 + len];
  }

  lemma BlockGrowsForward<T>(a: seq<T>, b: seq<T>, i: nat, j: nat, len: nat)
    requires Block(a, b, i, j, len) && i + len < |a| && j + len < |b| && a[i + len] == b[j + len]
    ensures Block(a, b, i, j, len + 1)
  {
    assert a[i..i + len + 1] == a[i..i + len] + [a[i + len]];
    assert b[j..j + len + 1] == b[j..j + len] + [b[j + len]];
  }

  // One more line at either end: the rarest is the old one or the new line.
  lemma RarestWider<T>(a: seq<T>, i: nat, len: nat, low: nat, p: nat)
    requires i + len < |a| && len > 0 && (p == i || p == i + len)
    requires Rarest(a, if p == i then i + 1 else i, len, low)
    ensures Rarest(a, i, len + 1, if Count(a, a[p]) < low then Count(a, a[p]) else low)
  {
    hide Count;
    var i0 := if p == i then i + 1 else i;
    var q :| i0 <= q < i0 + len && Count(a, a[q]) == low;
    var low' := if Count(a, a[p]) < low then Count(a, a[p]) else low;
    assert Count(a, a[if Count(a, a[p]) < low then p else q]) == low';
  }
}
