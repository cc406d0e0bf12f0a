/** Which lines a hexdump leaves out, and where it prints a star for them. */
module HexSkips {
  import opened HexBits
  import opened HexEntries

  // A line that is not shown: lines of zeros are to be skipped, and it is one that has another right
  // before it and is not the last.
  ghost predicate LeftOut(chunks: seq<seq<Octet>>, j: int, c: Config) {
    && c.autoskip && 0 < j < |chunks| - 1
    && OnlyZeros(chunks[j - 1]) && OnlyZeros(chunks[j])
  }

  predicate OnlyZeros(s: seq<Octet>) {
    forall k :: 0 <= k < |s| ==> s[k] == 0
  }

  lemma SkipsUnlessLast(chunks: seq<seq<Octet>>, j: int, c: Config)
    requires ProperChunks(chunks, c.cols) && 0 <= j < |chunks|
    ensures LeftOut(chunks, j, c) <==> Skips(chunks, j, c) && j < |chunks| - 1
  {
  }

  // ----- Lines -----

  ghost predicate LineOf(e: Entry, chunks: seq<seq<Octet>>, j: int) {
    0 <= j < |chunks| && e == LineAt(chunks, j)
  }

  ghost predicate ShownTo(chunks: seq<seq<Octet>>, k: nat, c: Config, e: Entry) {
    exists j :: LineOf(e, chunks, j) && j < k && !Skips(chunks, j, c)
  }

  lemma {:induction false} LinesTo(chunks: seq<seq<Octet>>, k: nat, c: Config, e: Entry)
    requires k <= |chunks| && e.Line?
    ensures e in EntriesTo(chunks, k, c) <==> ShownTo(chunks, k, c, e)
    decreases k
  {
    hide Skips, LineAt;
    if k > 0 {
      LinesTo(chunks, k - 1, c, e);
      OneLineMore(chunks, k, c, e);
      LineAtIsLine(chunks, k - 1);
    }
  }

  lemma LineAtIsLine(chunks: seq<seq<Octet>>, j: nat)
    requires j < |chunks|
    ensures LineAt(chunks, j).Line? && LineAt(chunks, j).bytes == chunks[j]
  {
  }

  lemma OneLineMore(chunks: seq<seq<Octet>>, k: nat, c: Config, e: Entry)
    requires 0 < k <= |chunks|
    ensures ShownTo(chunks, k, c, e) <==>
            ShownTo(chunks, k - 1, c, e) || (!Skips(chunks, k - 1, c) && e == LineAt(chunks, k - 1))
  {
    hide Skips, LineAt;
    if !Skips(chunks, k - 1, c) && e == LineAt(chunks, k - 1) {
      assert LineOf(e, chunks, k - 1);
    }
    if ShownTo(chunks, k, c, e) {
      var j :| LineOf(e, chunks, j) && j < k && !Skips(chunks, j, c);
      assert j < k - 1 ==> ShownTo(chunks, k - 1, c, e);
    }
  }

  // ----- Stars -----

  // A star stands between two lines with a gap between them; lines without one follow each other.
  ghost predicate Starred(es: seq<Entry>) {
    && (forall i :: 0 <= i < |es| && es[i].Star? ==>
          0 < i < |es| - 1 && es[i - 1].Line? && es[i + 1].Line? && es[i - 1].offset + |es[i - 1].bytes| < es[i + 1].offset)
    && (forall i :: 0 < i < |es| && es[i - 1].Line? && es[i].Line? ==> es[i].offset == es[i - 1].offset + |es[i - 1].bytes|)
  }

  lemma OffsetNext(chunks: seq<seq<Octet>>, j: nat)
    requires j < |chunks|
    ensures |Joined(chunks[..j + 1])| == |Joined(chunks[..j])| + |chunks[j]|
  {
    assert chunks[..j + 1] == chunks[..j] + [chunks[j]];
    JoinedAppend(chunks[..j], chunks[j]);
  }

  lemma {:induction false} OffsetsGrow(chunks: seq<seq<Octet>>, i: nat, j: nat, cols: nat)
    requires i < j <= |chunks| && ProperChunks(chunks, cols)
    ensures |Joined(chunks[..i])| + |chunks[i]| <= |Joined(chunks[..j])|
    ensures i < j - 1 ==> |Joined(chunks[..i])| + |chunks[i]| < |Joined(chunks[..j])|
    decreases j
  {
    OffsetNext(chunks, j - 1);
    if i < j - 1 {
      OffsetsGrow(chunks, i, j - 1, cols);
    }
  }

  // The entries end with the line numbered m.
  ghost predicate EndsWithLine(es: seq<Entry>, chunks: seq<seq<Octet>>, m: nat) {
    es != [] && m < |chunks| && es[|es| - 1] == LineAt(chunks, m)
  }

  lemma OneMoreShown(es: seq<Entry>, chunks: seq<seq<Octet>>, m: nat, j: nat, c: Config)
    requires Starred(es) && EndsWithLine(es, chunks, m) && m < j < |chunks| && ProperChunks(chunks, c.cols)
    ensures var es' := es + (StarIf(m < j - 1) + [LineAt(chunks, j)]);
            Starred(es') && EndsWithLine(es', chunks, j)
  {
    hide Joined;
    OffsetsGrow(chunks, m, j, c.cols);
    if m == j - 1 {
      OffsetNext(chunks, m);
    }
  }

  // So far the entries end with the last line that is not skipped.
  lemma {:induction false} StarredTo(chunks: seq<seq<Octet>>, k: nat, c: Config) returns (m: nat)
    requires 0 < k <= |chunks| && ProperChunks(chunks, c.cols)
    ensures var es := EntriesTo(chunks, k, c); Starred(es) && EndsWithLine(es, chunks, m) && m < k
    ensures !Skips(chunks, k - 1, c) ==> m == k - 1
    ensures Skips(chunks, k - 1, c) ==> m < k - 1
    decreases k
  {
    hide Skips, LineAt, Starred;
    if k == 1 {
      FirstShown(chunks, c);
      m := 0;
    } else {
      m := StarredTo(chunks, k - 1, c);
      var es := EntriesTo(chunks, k - 1, c);
      if Skips(chunks, k - 1, c) {
        assert es + [] == es;
      } else {
        OneMoreShown(es, chunks, m, k - 1, c);
        m := k - 1;
      }
    }
  }

  lemma FirstShown(chunks: seq<seq<Octet>>, c: Config)
    requires chunks != []
    ensures !Skips(chunks, 0, c) && !Skips(chunks, -1, c)
    ensures EntriesTo(chunks, 1, c) == [LineAt(chunks, 0)] && Starred([LineAt(chunks, 0)])
  {
    assert EntriesTo(chunks, 0, c) == [];
  }

  /** Shown are all lines but those left out, and there is a star exactly where lines are left out. */
  lemma ShownExactly(chunks: seq<seq<Octet>>, c: Config, e: Entry)
    requires ProperChunks(chunks, c.cols)
    ensures e.Line? ==> (e in EntriesOf(chunks, c) <==> exists j :: LineOf(e, chunks, j) && !LeftOut(chunks, j, c))
    ensures Starred(EntriesOf(chunks, c))
  {
    hide Skips, LineAt, EntriesTo, LeftOut, Starred;
    var n := |chunks|;
    LinesOrStars(chunks, c, e);
    if n == 0 {
      NothingShown(chunks, c);
    } else {
      var m := StarredTo(chunks, n, c);
      if Skips(chunks, n - 1, c) {
        var m' := BeforeLast(chunks, c);
        OneMoreShown(EntriesTo(chunks, n, c), chunks, m', n - 1, c);
      } else {
        assert EntriesTo(chunks, n, c) + [] == EntriesTo(chunks, n, c);
      }
    }
  }

  // If the last line is one more of zeros, the line shown before it is right before it or not.
  lemma BeforeLast(chunks: seq<seq<Octet>>, c: Config) returns (m: nat)
    requires chunks != [] && ProperChunks(chunks, c.cols) && Skips(chunks, |chunks| - 1, c)
    ensures var es := EntriesTo(chunks, |chunks|, c); Starred(es) && EndsWithLine(es, chunks, m) && m < |chunks| - 1
    ensures Skips(chunks, |chunks| - 2, c) <==> m < |chunks| - 2
  {
    var n := |chunks|;
    if n == 1 {
      FirstShown(chunks, c);
    }
    hide Skips, LineAt, Starred;
    SkippedLast(chunks, c);
    m := StarredTo(chunks, n - 1, c);
  }

  lemma NothingShown(chunks: seq<seq<Octet>>, c: Config)
    requires chunks == []
    ensures EntriesOf(chunks, c) == [] && Starred([])
  {
  }

  lemma TailOfEntries(chunks: seq<seq<Octet>>, c: Config, e: Entry)
    requires e.Line?
    ensures e in EntriesOf(chunks, c) <==>
            || e in EntriesTo(chunks, |chunks|, c)
            || (chunks != [] && Skips(chunks, |chunks| - 1, c) && e == LineAt(chunks, |chunks| - 1))
  {
    hide EntriesTo, LineAt;
  }

  lemma LinesOrStars(chunks: seq<seq<Octet>>, c: Config, e: Entry)
    requires ProperChunks(chunks, c.cols)
    ensures e.Line? ==> (e in EntriesOf(chunks, c) <==> exists j :: LineOf(e, chunks, j) && !LeftOut(chunks, j, c))
  {
    hide Skips, LineAt, EntriesTo, LeftOut;
    var n := |chunks|;
    if e.Line? {
      LinesTo(chunks, n, c, e);
      forall j | 0 <= j < n ensures LeftOut(chunks, j, c) <==> Skips(chunks, j, c) && j < n - 1 {
        SkipsUnlessLast(chunks, j, c);
      }
      if n > 0 && e == LineAt(chunks, n - 1) {
        assert LineOf(e, chunks, n - 1);
      }
      TailOfEntries(chunks, c, e);
      if j :| LineOf(e, chunks, j) && !LeftOut(chunks, j, c) {
        assert !Skips(chunks, j, c) ==> ShownTo(chunks, n, c, e);
        assert j < n - 1 ==> !Skips(chunks, j, c);
      }
    }
  }
}
