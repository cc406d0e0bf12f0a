/** Which positions of the new file the search for a splitting block looks at, and what it overlooks. */
module HistogramScan {
  import opened HistogramBlocks

  const MAX_CHAIN_LENGTH := 64

  // ----- The block through a pair of equal lines -----

  // How many equal lines there are from a pair of positions on, and how many before it.
  ghost function Forward<T>(a: seq<T>, b: seq<T>, i: nat, j: nat): (n: nat)
    requires i <= |a| && j <= |b|
    ensures i + n <= |a| && j + n <= |b|
    ensures n > 0 <==> i < |a| && j < |b| && a[i] == b[j]
    decreases |a| - i
  {
    if i < |a| && j < |b| && a[i] == b[j] then 1 + Forward(a, b, i + 1, j + 1) else 0
  }

  ghost function Backward<T>(a: seq<T>, b: seq<T>, i: nat, j: nat): (n: nat)
    requires i <= |a| && j <= |b|
    ensures n <= i && n <= j
  {
    if i > 0 && j > 0 && a[i - 1] == b[j - 1] then 1 + Backward(a, b, i - 1, j - 1) else 0
  }

  // The least number of times a line of a part of a occurs in a.
  ghost function Least<T>(a: seq<T>, i: nat, len: nat): nat
    requires len > 0 && i + len <= |a|
    decreases len
  {
    var last := Count(a, a[i + len - 1]);
    if len == 1 then last else
      var rest := Least(a, i, len - 1);
      if last < rest then last else rest
  }

  ghost function Size<T>(a: seq<T>, b: seq<T>, i: nat, j: nat): nat
    requires i <= |a| && j <= |b|
  {
    Backward(a, b, i, j) + Forward(a, b, i, j)
  }

  // How rare the rarest line of the block is.
  ghost function Rarity<T>(a: seq<T>, b: seq<T>, i: nat, j: nat): nat
    requires i < |a| && j < |b| && a[i] == b[j]
  {
    Least(a, i - Backward(a, b, i, j), Size(a, b, i, j))
  }

  lemma {:induction false} LeastIsRarest<T>(a: seq<T>, i: nat, len: nat)
    requires len > 0 && i + len <= |a|
    ensures Rarest(a, i, len, Least(a, i, len))
    decreases len
  {
    hide Count;
    assert a[i + len - 1] == a[i + len - 1];
    if len > 1 {
      LeastIsRarest(a, i, len - 1);
      var p :| i <= p < i + len - 1 && Count(a, a[p]) == Least(a, i, len - 1);
      assert Count(a, a[if Count(a, a[i + len - 1]) < Least(a, i, len - 1) then i + len - 1 else p]) == Least(a, i, len);
    }
  }

  lemma RarestIsLeast<T>(a: seq<T>, i: nat, len: nat, low: nat)
    requires len > 0 && i + len <= |a| && Rarest(a, i, len, low)
    ensures low == Least(a, i, len)
  {
    hide Count;
    LeastIsRarest(a, i, len);
    var p :| i <= p < i + len && Count(a, a[p]) == low;
    var q :| i <= q < i + len && Count(a, a[q]) == Least(a, i, len);
  }

  // A block holds equal pairs.
  lemma BlockAt<T>(a: seq<T>, b: seq<T>, i: nat, j: nat, len: nat, k: nat)
    requires Block(a, b, i, j, len) && k < len
    ensures a[i + k] == b[j + k]
  {
    assert a[i..i + len][k] == b[j..j + len][k];
  }

  lemma {:induction false} ForwardIs<T>(a: seq<T>, b: seq<T>, i: nat, j: nat, n: nat)
    requires Block(a, b, i, j, n) && !(i + n < |a| && j + n < |b| && a[i + n] == b[j + n])
    ensures Forward(a, b, i, j) == n
    decreases n
  {
    if n > 0 {
      BlockAt(a, b, i, j, n, 0);
      assert a[i + 1..i + n] == a[i..i + n][1..] && b[j + 1..j + n] == b[j..j + n][1..];
      ForwardIs(a, b, i + 1, j + 1, n - 1);
    }
  }

  lemma {:induction false} BackwardIs<T>(a: seq<T>, b: seq<T>, i: nat, j: nat, n: nat)
    requires n <= i && n <= j && Block(a, b, i - n, j - n, n) && !(i - n > 0 && j - n > 0 && a[i - n - 1] == b[j - n - 1])
    ensures Backward(a, b, i, j) == n
    decreases n
  {
    if n > 0 {
      BlockAt(a, b, i - n, j - n, n, n - 1);
      assert a[i - n..i - 1] == a[i - n..i][..n - 1] && b[j - n..j - 1] == b[j - n..j][..n - 1];
      BackwardIs(a, b, i - 1, j - 1, n - 1);
    }
  }

  // A maximal block is the block through each of its pairs.
  lemma ThroughPair<T>(a: seq<T>, b: seq<T>, i: nat, j: nat, len: nat, k: nat)
    requires Block(a, b, i, j, len) && Maximal(a, b, i, j, len) && k < len
    ensures a[i + k] == b[j + k] && Backward(a, b, i + k, j + k) == k && Size(a, b, i + k, j + k) == len
    ensures Rarity(a, b, i + k, j + k) == Least(a, i, len)
  {
    hide Least, Forward, Backward;
    BlockAt(a, b, i, j, len, k);
    BlockParts(a, b, i, j, len, k);
    BackwardIs(a, b, i + k, j + k, k);
    ForwardIs(a, b, i + k, j + k, len - k);
  }

  lemma BlockParts<T>(a: seq<T>, b: seq<T>, i: nat, j: nat, len: nat, k: nat)
    requires Block(a, b, i, j, len) && k <= len
    ensures Block(a, b, i, j, k) && Block(a, b, i + k, j + k, len - k)
  {
    assert a[i..i + k] == a[i..i + len][..k] && b[j..j + k] == b[j..j + len][..k];
    assert a[i + k..i + len] == a[i..i + len][k..] && b[j + k..j + len] == b[j..j + len][k..];
  }

  // ----- The positions looked at -----

  // How far past j the blocks through the first k occurrences of its line reach, and how rare they are.
  ghost function Reach<T>(a: seq<T>, b: seq<T>, j: nat, k: nat): (n: nat)
    requires j < |b| && k <= |Occurrences(a, b[j])|
    ensures n > 0
    decreases k
  {
    if k == 0 then 1
    else
      OccurrencesAre(a, b[j]);
      assert Occurrences(a, b[j])[k - 1] in Occurrences(a, b[j]);
      var n, m := Reach(a, b, j, k - 1), Forward(a, b, Occurrences(a, b[j])[k - 1], j);
      if m > n then m else n
  }

  ghost function Lowest<T>(a: seq<T>, b: seq<T>, j: nat, k: nat, threshold: nat): (n: nat)
    requires j < |b| && k <= |Occurrences(a, b[j])|
    ensures n <= threshold
    decreases k
  {
    if k == 0 then threshold
    else
      OccurrencesAre(a, b[j]);
      assert Occurrences(a, b[j])[k - 1] in Occurrences(a, b[j]);
      var n, m := Lowest(a, b, j, k - 1, threshold), Rarity(a, b, Occurrences(a, b[j])[k - 1], j);
      if m < n then m else n
  }

  // A line that is passed over: not common, too frequent, or more frequent than the best so far.
  ghost predicate PassedOver<T>(a: seq<T>, b: seq<T>, j: nat, threshold: nat)
    requires j < |b|
  {
    b[j] !in a || Count(a, b[j]) > MAX_CHAIN_LENGTH || Count(a, b[j]) > threshold
  }

  // What is looked at from position j on, and the rarity that is found in the end.
  ghost function LookedFrom<T>(a: seq<T>, b: seq<T>, j: nat, threshold: nat): (set<nat>, nat)
    decreases |b| - j
  {
    if j >= |b| then ({}, threshold)
    else if PassedOver(a, b, j, threshold) then LookedFrom(a, b, j + 1, threshold)
    else
      var n := Count(a, b[j]);
      var rest := LookedFrom(a, b, j + Reach(a, b, j, n), Lowest(a, b, j, n, threshold));
      ({j} + rest.0, rest.1)
  }

  ghost function Looked<T>(a: seq<T>, b: seq<T>): set<nat> {
    LookedFrom(a, b, 0, MAX_CHAIN_LENGTH + 1).0
  }

  // ----- What is overlooked -----

  // A maximal block with this rarest line.
  ghost predicate RareBlock<T>(a: seq<T>, b: seq<T>, i: nat, j: nat, len: nat, threshold: nat) {
    len > 0 && Block(a, b, i, j, len) && Maximal(a, b, i, j, len) && Rarest(a, i, len, threshold)
  }

  ghost predicate Overlooked<T>(a: seq<T>, b: seq<T>, j: nat, len: nat) {
    forall q :: j <= q < j + len ==> q !in Looked(a, b)
  }

  // No block of the chosen rarity is longer.
  ghost predicate LongestRare<T>(a: seq<T>, b: seq<T>, threshold: nat, len: nat) {
    forall i: nat, j: nat, l: nat :: RareBlock(a, b, i, j, l, threshold) ==> l <= len
  }

  // No block through a position looked at is rarer, or as rare and longer.
  ghost predicate BestLooked<T>(a: seq<T>, b: seq<T>, looked: set<nat>, threshold: nat, len: nat) {
    forall q: nat, p: nat :: q in looked && q < |b| && p < |a| && a[p] == b[q] ==> NotBetter(a, b, p, q, threshold, len)
  }

  ghost predicate NotBetter<T>(a: seq<T>, b: seq<T>, p: nat, q: nat, threshold: nat, len: nat)
    requires p < |a| && q < |b| && a[p] == b[q]
  {
    Rarity(a, b, p, q) > threshold || (Rarity(a, b, p, q) == threshold && Size(a, b, p, q) <= len)
  }

  // What the search comes to: the rarity it ends with, and no better block through what it looked at.
  ghost predicate SearchEnds<T>(a: seq<T>, b: seq<T>, threshold: nat, len: nat) {
    LookedFrom(a, b, 0, MAX_CHAIN_LENGTH + 1).1 == threshold && BestLooked(a, b, Looked(a, b), threshold, len)
  }

  /** The chosen block is the longest of its rarity if and only if no longer one is overlooked. */
  lemma LongestUnlessOverlooked<T>(a: seq<T>, b: seq<T>, threshold: nat, len: nat)
    requires SearchEnds(a, b, threshold, len)
    ensures LongestRare(a, b, threshold, len) <==>
            forall i: nat, j: nat, l: nat :: RareBlock(a, b, i, j, l, threshold) && Overlooked(a, b, j, l) ==> l <= len
  {
    hide Block, Maximal, Count, Looked;
    forall i: nat, j: nat, l: nat | RareBlock(a, b, i, j, l, threshold) && !Overlooked(a, b, j, l) ensures l <= len {
      var q :| j <= q < j + l && q in Looked(a, b);
      Bounds(a, b, i, j, l);
      ThroughPair(a, b, i, j, l, q - j);
      RarestIsLeast(a, i, l, threshold);
      assert NotBetter(a, b, i + (q - j), q, threshold, len);
    }
  }

  lemma Bounds<T>(a: seq<T>, b: seq<T>, i: nat, j: nat, len: nat)
    requires Block(a, b, i, j, len)
    ensures i + len <= |a| && j + len <= |b|
  {
  }

  // Everything that is not rarer than the outcome and passed by is jumped over from a position looked at.
  lemma {:induction false} JumpedOver<T>(a: seq<T>, b: seq<T>, j: nat, threshold: nat, q: nat) returns (from: nat, p: nat)
    requires j <= q < |b| && b[q] in a && Count(a, b[q]) <= MAX_CHAIN_LENGTH
    requires Count(a, b[q]) <= LookedFrom(a, b, j, threshold).1 && q !in LookedFrom(a, b, j, threshold).0
    ensures from in LookedFrom(a, b, j, threshold).0 && from < q
    ensures p < |a| && a[p] == b[from] && q < from + Forward(a, b, p, from)
    decreases |b| - j
  {
    hide Count, Forward;
    OutcomeLowers(a, b, j, threshold);
    if PassedOver(a, b, j, threshold) {
      from, p := JumpedOver(a, b, j + 1, threshold, q);
    } else {
      var n := Count(a, b[j]);
      CountIs(a, b[j]);
      var next := j + Reach(a, b, j, n);
      if q < next {
        from := j;
        p := Reaching(a, b, j, n, q);
      } else {
        from, p := JumpedOver(a, b, next, Lowest(a, b, j, n, threshold), q);
      }
    }
  }

  lemma CountIs<T>(a: seq<T>, line: T)
    ensures Count(a, line) == |Occurrences(a, line)|
  {
  }

  lemma {:induction false} OutcomeLowers<T>(a: seq<T>, b: seq<T>, j: nat, threshold: nat)
    ensures LookedFrom(a, b, j, threshold).1 <= threshold
    decreases |b| - j
  {
    hide Reach, Lowest;
    if j < |b| {
      if PassedOver(a, b, j, threshold) {
        OutcomeLowers(a, b, j + 1, threshold);
      } else {
        var n := Count(a, b[j]);
        OutcomeLowers(a, b, j + Reach(a, b, j, n), Lowest(a, b, j, n, threshold));
      }
    }
  }

  // The occurrence whose block reaches beyond q.
  lemma {:induction false} Reaching<T>(a: seq<T>, b: seq<T>, j: nat, k: nat, q: nat) returns (p: nat)
    requires j < q < |b| && k <= |Occurrences(a, b[j])| && q < j + Reach(a, b, j, k)
    ensures p < |a| && a[p] == b[j] && q < j + Forward(a, b, p, j)
    decreases k
  {
    hide Forward;
    OccurrencesAre(a, b[j]);
    var last := Occurrences(a, b[j])[k - 1];
    assert last in Occurrences(a, b[j]);
    if q < j + Forward(a, b, last, j) {
      p := last;
    } else {
      p := Reaching(a, b, j, k - 1, q);
    }
  }

  // Pairs on the way of a block forward are equal.
  lemma {:induction false} OnTheWay<T>(a: seq<T>, b: seq<T>, i: nat, j: nat, k: nat)
    requires i <= |a| && j <= |b| && k < Forward(a, b, i, j)
    ensures i + k < |a| && j + k < |b| && Block(a, b, i, j, k + 1)
    decreases k
  {
    if k > 0 {
      OnTheWay(a, b, i + 1, j + 1, k - 1);
      assert a[i..i + k + 1] == [a[i]] + a[i + 1..i + 1 + k];
      assert b[j..j + k + 1] == [b[j]] + b[j + 1..j + 1 + k];
    } else {
      assert a[i..i + 1] == [a[i]] && b[j..j + 1] == [b[j]];
    }
  }

  // A maximal block holds every pair that is connected with one of its pairs.
  lemma HoldsConnected<T>(a: seq<T>, b: seq<T>, i: nat, j: nat, len: nat, p: nat, q: nat, n: nat)
    requires Block(a, b, i, j, len) && Maximal(a, b, i, j, len) && Block(a, b, p, q, n + 1)
    requires p - q == i - j && j <= q + n < j + len
    ensures j <= q
  {
    BlockPairs(a, b, p, q, n + 1);
  }

  lemma BlockPairs<T>(a: seq<T>, b: seq<T>, i: nat, j: nat, len: nat)
    requires Block(a, b, i, j, len)
    ensures forall y :: j <= y < j + len ==> 0 <= i - j + y < |a| && a[i - j + y] == b[y]
  {
    forall y | j <= y < j + len ensures 0 <= i - j + y < |a| && a[i - j + y] == b[y] {
      BlockAt(a, b, i, j, len, y - j);
    }
  }

  /** A block that is overlooked has its rarest lines inside other blocks, which were looked at before: so
      none of its lines occurs only once. */
  lemma OverlookedOccursTwice<T>(a: seq<T>, b: seq<T>, i: nat, j: nat, len: nat, threshold: nat)
    requires RareBlock(a, b, i, j, len, threshold) && Overlooked(a, b, j, len)
    requires threshold <= MAX_CHAIN_LENGTH && LookedFrom(a, b, 0, MAX_CHAIN_LENGTH + 1).1 == threshold
    ensures threshold >= 2
  {
    hide Count, Block, Maximal, Forward, LookedFrom;
    Bounds(a, b, i, j, len);
    var r :| i <= r < i + len && Count(a, a[r]) == threshold;
    BlockAt(a, b, i, j, len, r - i);
    var q := j + (r - i);
    assert b[q] in a;
    assert q !in Looked(a, b);
    var from, p := JumpedOver(a, b, 0, MAX_CHAIN_LENGTH + 1, q);
    assert from in Looked(a, b);
    OnTheWay(a, b, p, from, q - from);
    BlockAt(a, b, p, from, q - from + 1, q - from);
    if p + (q - from) == r {
      HoldsConnected(a, b, i, j, len, p, from, q - from);
    } else {
      TwoPlaces(a, r, p + (q - from));
    }
  }

  lemma TwoPlaces<T>(a: seq<T>, p: nat, q: nat)
    requires p < |a| && q < |a| && p != q && a[p] == a[q]
    ensures Count(a, a[p]) >= 2
  {
    OccurrencesAre(a, a[p]);
    var s := Occurrences(a, a[p]);
    assert p in s && q in s;
    var i :| 0 <= i < |s| && s[i] == p;
    var j :| 0 <= j < |s| && s[j] == q;
  }

  // With a line that occurs only once the block chosen is the longest around such a line.
  lemma UniqueIsLongest<T>(a: seq<T>, b: seq<T>, threshold: nat, len: nat)
    requires SearchEnds(a, b, threshold, len) && threshold == 1
    ensures LongestRare(a, b, threshold, len)
  {
    hide RareBlock, BestLooked, Overlooked, Looked, LookedFrom;
    LongestUnlessOverlooked(a, b, threshold, len);
    forall i: nat, j: nat, l: nat ensures !(RareBlock(a, b, i, j, l, threshold) && Overlooked(a, b, j, l)) {
      if RareBlock(a, b, i, j, l, threshold) && Overlooked(a, b, j, l) {
        OverlookedOccursTwice(a, b, i, j, l, threshold);
      }
    }
  }

  // A better choice leaves nothing better behind.
  lemma StillBest<T>(a: seq<T>, b: seq<T>, looked: set<nat>, threshold: nat, len: nat, threshold': nat, len': nat, j: nat)
    requires BestLooked(a, b, looked, threshold, len)
    requires threshold' < threshold || (threshold' == threshold && len <= len')
    requires j < |b| && forall p: nat :: p < |a| && a[p] == b[j] ==> NotBetter(a, b, p, j, threshold', len')
    ensures BestLooked(a, b, looked + {j}, threshold', len')
  {
    hide Rarity, Size;
    forall q: nat, p: nat | q in looked + {j} && q < |b| && p < |a| && a[p] == b[q] ensures NotBetter(a, b, p, q, threshold', len') {
      assert q in looked ==> NotBetter(a, b, p, q, threshold, len);
    }
  }

  // The steps of the search.
  lemma LookedNext<T>(a: seq<T>, b: seq<T>, j: nat, threshold: nat)
    requires j < |b|
    ensures PassedOver(a, b, j, threshold) ==> LookedFrom(a, b, j, threshold) == LookedFrom(a, b, j + 1, threshold)
    ensures !PassedOver(a, b, j, threshold) ==>
              && Count(a, b[j]) == |Occurrences(a, b[j])|
              && var n := Count(a, b[j]); var rest := LookedFrom(a, b, j + Reach(a, b, j, n), Lowest(a, b, j, n, threshold));
                 LookedFrom(a, b, j, threshold) == ({j} + rest.0, rest.1)
  {
  }

  // ----- A longer block that is overlooked -----

  const OLD := [0, 1, 2, 1, 3, 2, 4, 4, 4, 5]
  const NEW := [6, 1, 2, 4, 4, 4, 7]

  lemma OccurrencesNext(s: seq<int>, k: nat, line: int)
    requires k < |s|
    ensures Occurrences(s[..k + 1], line) == Occurrences(s[..k], line) + if s[k] == line then [k] else []
  {
    assert s[..k + 1][..k] == s[..k];
  }

  lemma FirstOccurrences(s: seq<int>, line: int)
    requires |s| == 10
    ensures Occurrences(s[..5], line) ==
            (if s[0] == line then [0] else []) + (if s[1] == line then [1] else []) + (if s[2] == line then [2] else [])
            + (if s[3] == line then [3] else []) + (if s[4] == line then [4] else [])
  {
    hide Occurrences;
    NoOccurrences(line);
    assert s[..0] == [];
    OccurrencesNext(s, 0, line);
    OccurrencesNext(s, 1, line);
    OccurrencesNext(s, 2, line);
    OccurrencesNext(s, 3, line);
    OccurrencesNext(s, 4, line);
  }

  lemma TenOccurrences(s: seq<int>, line: int)
    requires |s| == 10
    ensures Occurrences(s, line) == Occurrences(s[..5], line)
            + (if s[5] == line then [5] else []) + (if s[6] == line then [6] else []) + (if s[7] == line then [7] else [])
            + (if s[8] == line then [8] else []) + (if s[9] == line then [9] else [])
  {
    hide Occurrences;
    OccurrencesNext(s, 5, line);
    OccurrencesNext(s, 6, line);
    OccurrencesNext(s, 7, line);
    OccurrencesNext(s, 8, line);
    OccurrencesNext(s, 9, line);
    assert s[..10] == s;
  }

  lemma NoOccurrences(line: int)
    ensures Occurrences([], line) == []
  {
  }

  lemma OldOccurrences()
    ensures Occurrences(OLD, 1) == [1, 3] && Occurrences(OLD, 2) == [2, 5] && Occurrences(OLD, 4) == [6, 7, 8]
  {
    hide Occurrences;
    FirstOccurrences(OLD, 1);
    TenOccurrences(OLD, 1);
    FirstOccurrences(OLD, 2);
    TenOccurrences(OLD, 2);
    FirstOccurrences(OLD, 4);
    TenOccurrences(OLD, 4);
  }

  lemma OldCounts()
    ensures Count(OLD, 1) == 2 && Count(OLD, 2) == 2 && Count(OLD, 4) == 3
  {
    hide Occurrences;
    OldOccurrences();
    CountIs(OLD, 1);
    CountIs(OLD, 2);
    CountIs(OLD, 4);
  }

  // A block of two lines, one of one line, and one of four lines, all as rare.
  lemma ThreeBlocks()
    ensures RareBlock(OLD, NEW, 1, 1, 2, 2) && RareBlock(OLD, NEW, 3, 1, 1, 2) && RareBlock(OLD, NEW, 5, 2, 4, 2)
  {
    hide Count;
    OldCounts();
    assert OLD[1..3] == NEW[1..3] && OLD[3..4] == NEW[1..2] && OLD[5..9] == NEW[2..6];
    assert Count(OLD, OLD[1]) == 2 && Count(OLD, OLD[3]) == 2 && Count(OLD, OLD[5]) == 2;
  }

  // The only position looked at is 1.
  lemma OnlyOneLooked()
    ensures LookedFrom(OLD, NEW, 0, MAX_CHAIN_LENGTH + 1) == ({1}, 2)
  {
    hide Count, Occurrences, Reach, Lowest;
    OldCounts();
    OneStep();
    LookedNext(OLD, NEW, 0, MAX_CHAIN_LENGTH + 1);
    LookedNext(OLD, NEW, 1, MAX_CHAIN_LENGTH + 1);
    LookedNext(OLD, NEW, 3, 2);
    LookedNext(OLD, NEW, 4, 2);
    LookedNext(OLD, NEW, 5, 2);
    LookedNext(OLD, NEW, 6, 2);
    assert OLD[1] == NEW[1];
    assert LookedFrom(OLD, NEW, 7, 2) == ({}, 2);
    assert {1} + {} == {1};
  }

  lemma OneStep()
    ensures |Occurrences(OLD, NEW[1])| == 2 && Reach(OLD, NEW, 1, 2) == 2 && Lowest(OLD, NEW, 1, 2, MAX_CHAIN_LENGTH + 1) == 2
  {
    hide Occurrences, Block, Maximal, Rarest, Reach, Lowest, Forward, Rarity;
    OldOccurrences();
    ThreeBlocks();
    BlockFrom(OLD, NEW, 1, 1, 2, 2);
    BlockFrom(OLD, NEW, 3, 1, 1, 2);
    TwoOccurrences(OLD, NEW, 1, 1, 3);
  }

  lemma BlockFrom(a: seq<int>, b: seq<int>, i: nat, j: nat, len: nat, threshold: nat)
    requires RareBlock(a, b, i, j, len, threshold)
    ensures i < |a| && j < |b| && a[i] == b[j] && Forward(a, b, i, j) == len && Rarity(a, b, i, j) == threshold
  {
    hide Block, Maximal, Rarest, Least, Forward, Backward;
    Bounds(a, b, i, j, len);
    ThroughPair(a, b, i, j, len, 0);
    RarestIsLeast(a, i, len, threshold);
  }

  lemma TwoOccurrences(a: seq<int>, b: seq<int>, j: nat, p: nat, q: nat)
    requires j < |b| && Occurrences(a, b[j]) == [p, q] && p < |a| && q < |a| && a[p] == b[j] == a[q]
    requires Forward(a, b, p, j) == 2 && Forward(a, b, q, j) == 1 && Rarity(a, b, p, j) == 2 == Rarity(a, b, q, j)
    ensures Reach(a, b, j, 2) == 2 && Lowest(a, b, j, 2, MAX_CHAIN_LENGTH + 1) == 2
  {
    hide Occurrences, Forward, Rarity;
    assert Reach(a, b, j, 1) == 2 && Lowest(a, b, j, 1, MAX_CHAIN_LENGTH + 1) == 2;
  }

  /** On these files the search ends with a block of two lines, although one of four lines is as rare. */
  lemma SearchOverlooks(i: nat, j: nat, len: nat, threshold: nat)
    requires SearchEnds(OLD, NEW, threshold, len) && RareBlock(OLD, NEW, i, j, len, threshold) && !Overlooked(OLD, NEW, j, len)
    ensures threshold == 2 && len <= 2
    ensures Overlooked(OLD, NEW, 2, 4) && !LongestRare(OLD, NEW, threshold, len)
  {
    hide LookedFrom, RareBlock, BestLooked;
    OnlyOneLooked();
    ThreeBlocks();
    ThroughOne(OLD, NEW, i, j, len);
  }

  lemma ThroughOne(a: seq<int>, b: seq<int>, i: nat, j: nat, len: nat)
    requires RareBlock(a, b, i, j, len, 2) && RareBlock(a, b, 1, 1, 2, 2) && RareBlock(a, b, 3, 1, 1, 2) && j <= 1 < j + len
    requires 1 < |b| && forall p :: 0 <= p < |a| && a[p] == b[1] ==> p == 1 || p == 3
    ensures len <= 2
  {
    hide Block, Maximal, Rarest, Least, Forward, Backward, Size, Rarity;
    Bounds(a, b, i, j, len);
    Bounds(a, b, 1, 1, 2);
    Bounds(a, b, 3, 1, 1);
    ThroughPair(a, b, i, j, len, 1 - j);
    ThroughPair(a, b, 1, 1, 2, 0);
    ThroughPair(a, b, 3, 1, 1, 0);
  }
}
