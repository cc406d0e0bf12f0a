/** The patience diff: anchors on the lines that occur once in each file, a longest increasing
    chain of them by patience sorting, and recursion into the gaps. */
module PatienceDiff {
  import opened EditScript
  import opened Myers
  import opened Trim

  datatype Match = Match(oldIdx: nat, newIdx: nat)

  // ----- Lines that occur exactly once on each side -----

  ghost predicate OccursOnce<T>(s: seq<T>, i: nat) {
    i < |s| && forall j :: 0 <= j < |s| && s[j] == s[i] ==> j == i
  }

  ghost predicate UniqueMatch<T>(a: seq<T>, b: seq<T>, m: Match) {
    OccursOnce(a, m.oldIdx) && OccursOnce(b, m.newIdx) && a[m.oldIdx] == b[m.newIdx]
  }

  // How often a line has been seen on each side, and where last.
  datatype LineInfo = LineInfo(oldCount: nat, oldIdx: int, newCount: nat, newIdx: int)

  // count and idx describe the occurrences of line in s, as far as "none, one or more" goes.
  ghost predicate Tallies<T>(s: seq<T>, line: T, count: nat, idx: int) {
    && (count == 0 <==> line !in s)
    && (count > 0 ==> 0 <= idx < |s| && s[idx] == line)
    && (count == 1 <==> count > 0 && OccursOnce(s, idx))
  }

  const UNSEEN := LineInfo(0, -1, 0, -1)

  function InfoOf<T>(m: map<T, LineInfo>, line: T): LineInfo {
    if line in m then m[line] else UNSEEN
  }

  lemma TallyNext<T>(s: seq<T>, line: T, count: nat, idx: int, next: T)
    requires Tallies(s, line, count, idx)
    ensures if next == line then Tallies(s + [next], line, count + 1, |s|)
            else Tallies(s + [next], line, count, idx)
  {
    var t := s + [next];
    assert t[|s|] == next;
    assert forall j :: 0 <= j < |s| ==> t[j] == s[j];
    if next == line {
      if count > 0 {
        assert t[idx] == t[|s|];
      }
      assert OccursOnce(t, |s|) <==> count == 0;
    } else if count > 0 {
      assert OccursOnce(t, idx) <==> OccursOnce(s, idx);
    }
  }

  // The map tells of every line how often it occurs on both sides.
  ghost predicate TalliesAll<T(!new)>(info: map<T, LineInfo>, a: seq<T>, b: seq<T>) {
    forall l :: && (l in info <==> l in a || l in b)
                && Tallies(a, l, InfoOf(info, l).oldCount, InfoOf(info, l).oldIdx)
                && Tallies(b, l, InfoOf(info, l).newCount, InfoOf(info, l).newIdx)
  }

  lemma TallyOld<T(!new)>(info: map<T, LineInfo>, a: seq<T>, b: seq<T>, line: T)
    requires TalliesAll(info, a, b)
    ensures var f := InfoOf(info, line);
            TalliesAll(info[line := f.(oldCount := f.oldCount + 1, oldIdx := |a|)], a + [line], b)
  {
    var f := InfoOf(info, line);
    var info' := info[line := f.(oldCount := f.oldCount + 1, oldIdx := |a|)];
    forall l
      ensures l in info' <==> l in a + [line] || l in b
      ensures Tallies(a + [line], l, InfoOf(info', l).oldCount, InfoOf(info', l).oldIdx)
      ensures Tallies(b, l, InfoOf(info', l).newCount, InfoOf(info', l).newIdx)
    {
      TallyNext(a, l, InfoOf(info, l).oldCount, InfoOf(info, l).oldIdx, line);
    }
  }

  lemma TallyNew<T(!new)>(info: map<T, LineInfo>, a: seq<T>, b: seq<T>, line: T)
    requires TalliesAll(info, a, b)
    ensures var f := InfoOf(info, line);
            TalliesAll(info[line := f.(newCount := f.newCount + 1, newIdx := |b|)], a, b + [line])
  {
    var f := InfoOf(info, line);
    var info' := info[line := f.(newCount := f.newCount + 1, newIdx := |b|)];
    forall l
      ensures l in info' <==> l in a || l in b + [line]
      ensures Tallies(a, l, InfoOf(info', l).oldCount, InfoOf(info', l).oldIdx)
      ensures Tallies(b + [line], l, InfoOf(info', l).newCount, InfoOf(info', l).newIdx)
    {
      TallyNext(b, l, InfoOf(info, l).newCount, InfoOf(info, l).newIdx, line);
    }
  }

  method TallyLines<T(==,!new)>(a: seq<T>, b: seq<T>) returns (info: map<T, LineInfo>)
    ensures TalliesAll(info, a, b)
  {
    info := map[];
    assert TalliesAll(info, [], []);
    hide Tallies, TalliesAll;
    for i := 0 to |a|
      invariant TalliesAll(info, a[..i], [])
    {
      var f := InfoOf(info, a[i]);
      assert a[..i + 1] == a[..i] + [a[i]];
      TallyOld(info, a[..i], [], a[i]);
      info := info[a[i] := f.(oldCount := f.oldCount + 1, oldIdx := i)];
    }
    assert a[..|a|] == a;
    assert [] == b[..0];
    for j := 0 to |b|
      invariant TalliesAll(info, a, b[..j])
    {
      var f := InfoOf(info, b[j]);
      assert b[..j + 1] == b[..j] + [b[j]];
      TallyNew(info, a, b[..j], b[j]);
      info := info[b[j] := f.(newCount := f.newCount + 1, newIdx := j)];
    }
    assert b[..|b|] == b;
  }

  ghost predicate OldIncreasing(ms: seq<Match>) {
    forall i, j :: 0 <= i < j < |ms| ==> ms[i].oldIdx < ms[j].oldIdx
  }

  lemma Among(ms: seq<Match>, m: Match, i: nat)
    requires i <= |ms|
    ensures forall x :: x in ms[..i] + [m] + ms[i..] <==> x in ms || x == m
  {
    assert ms == ms[..i] + ms[i..];
  }

  // The library's sort by old index, for matches with different old indices.
  method InsertByOld(ms: seq<Match>, m: Match) returns (r: seq<Match>)
    requires OldIncreasing(ms) && forall x :: x in ms ==> x.oldIdx != m.oldIdx
    ensures OldIncreasing(r) && forall x :: x in r <==> x in ms || x == m
  {
    var i := |ms|;
    while i > 0 && ms[i - 1].oldIdx > m.oldIdx
      invariant 0 <= i <= |ms|
      invariant forall j :: i <= j < |ms| ==> ms[j].oldIdx > m.oldIdx
    {
      i := i - 1;
    }
    r := ms[..i] + [m] + ms[i..];
    assert i > 0 ==> ms[i - 1] in ms;
    Among(ms, m, i);
  }

  /** All lines unique on both sides, in the order of the old file. The map is read in any order,
      so the matches are sorted. */
  method UniqueMatches<T(==,!new)>(a: seq<T>, b: seq<T>) returns (ms: seq<Match>)
    ensures OldIncreasing(ms)
    ensures forall m :: m in ms <==> UniqueMatch(a, b, m)
  {
    var info := TallyLines(a, b);
    var todo := info.Keys;
    ms := [];
    while todo != {}
      invariant todo <= info.Keys
      invariant OldIncreasing(ms)
      invariant forall m :: m in ms <==> UniqueMatch(a, b, m) && a[m.oldIdx] !in todo
      decreases |todo|
    {
      var line :| line in todo;
      var f := info[line];
      assert f == InfoOf(info, line);
      if f.oldCount == 1 && f.newCount == 1 {
        var m := Match(f.oldIdx, f.newIdx);
        assert UniqueMatch(a, b, m);
        ms := InsertByOld(ms, m);
      }
      forall m | UniqueMatch(a, b, m) && a[m.oldIdx] == line
        ensures f.oldCount == 1 && f.newCount == 1 && m == Match(f.oldIdx, f.newIdx)
      {
        OnceMeansOne(a, line, f.oldCount, f.oldIdx, m.oldIdx);
        OnceMeansOne(b, line, f.newCount, f.newIdx, m.newIdx);
      }
      todo := todo - {line};
    }
  }

  lemma OnceMeansOne<T>(s: seq<T>, line: T, count: nat, idx: int, i: nat)
    requires Tallies(s, line, count, idx) && OccursOnce(s, i) && s[i] == line
    ensures count == 1 && idx == i
  {
  }

  // ----- A longest increasing chain -----

  ghost predicate NewDistinct(ms: seq<Match>) {
    forall i, j :: 0 <= i < j < |ms| ==> ms[i].newIdx != ms[j].newIdx
  }

  // Strictly increasing in both files.
  ghost predicate Chain(c: seq<Match>) {
    forall i, j :: 0 <= i < j < |c| ==> c[i].oldIdx < c[j].oldIdx && c[i].newIdx < c[j].newIdx
  }

  ghost predicate ChainIn(c: seq<Match>, ms: seq<Match>) {
    Chain(c) && forall x :: x in c ==> x in ms
  }

  datatype Card = Card(newIdx: nat, oldIdx: nat, back: int)

  // pile says on which pile each card was put; tops holds the top card of each pile, its least.
  ghost predicate TopIsLeast(cards: seq<Card>, pile: seq<nat>, tops: seq<nat>) {
    && |pile| == |cards|
    && (forall p :: 0 <= p < |tops| ==> tops[p] < |cards| && pile[tops[p]] == p)
    && (forall i :: 0 <= i < |cards| ==> pile[i] < |tops| && cards[tops[pile[i]]].newIdx <= cards[i].newIdx)
  }

  ghost predicate TopsAscend(cards: seq<Card>, tops: seq<nat>) {
    && (forall p :: 0 <= p < |tops| ==> tops[p] < |cards|)
    && (forall p, q :: 0 <= p < q < |tops| ==> cards[tops[p]].newIdx < cards[tops[q]].newIdx)
  }

  ghost predicate Piles(cards: seq<Card>, pile: seq<nat>, tops: seq<nat>) {
    TopIsLeast(cards, pile, tops) && TopsAscend(cards, tops)
  }

  // Card i points back to a smaller one on the pile before.
  ghost predicate BackLink(cards: seq<Card>, pile: seq<nat>, i: nat)
    requires i < |cards| == |pile|
  {
    var b := cards[i].back;
    if pile[i] == 0 then b == -1
    else 0 <= b < i && pile[b] == pile[i] - 1 && cards[b].newIdx < cards[i].newIdx
  }

  ghost predicate BackLinks(cards: seq<Card>, pile: seq<nat>) {
    |pile| == |cards| && forall i: nat :: i < |cards| ==> BackLink(cards, pile, i)
  }

  // A larger card put down later is on a later pile: a chain has no more cards than there are piles.
  ghost predicate PilesGrow(ms: seq<Match>, pile: seq<nat>) {
    |pile| <= |ms| && forall i, j :: 0 <= i < j < |pile| && ms[i].newIdx < ms[j].newIdx ==> pile[i] < pile[j]
  }

  ghost predicate CardsOf(cards: seq<Card>, ms: seq<Match>) {
    |cards| <= |ms| && forall i :: 0 <= i < |cards| ==> cards[i].newIdx == ms[i].newIdx && cards[i].oldIdx == ms[i].oldIdx
  }

  ghost predicate Stacked(ms: seq<Match>, cards: seq<Card>, pile: seq<nat>, tops: seq<nat>) {
    CardsOf(cards, ms) && Piles(cards, pile, tops) && BackLinks(cards, pile) && PilesGrow(ms, pile)
  }

  lemma {:induction false} ChainAtMostPiles(ms: seq<Match>, pile: seq<nat>, c: seq<Match>) returns (t: nat)
    requires OldIncreasing(ms) && |pile| == |ms| && PilesGrow(ms, pile)
    requires c != [] && ChainIn(c, ms)
    ensures t < |ms| && ms[t] == c[|c| - 1] && pile[t] >= |c| - 1
    decreases |c|
  {
    var last := c[|c| - 1];
    assert last in c;
    t :| 0 <= t < |ms| && ms[t] == last;
    if |c| > 1 {
      var init := c[..|c| - 1];
      assert forall x :: x in init ==> x in c;
      var s := ChainAtMostPiles(ms, pile, init);
      assert ms[s] == c[|c| - 2];
      assert c[|c| - 2].oldIdx < last.oldIdx;
    }
  }

  ghost predicate Fits(cards: seq<Card>, tops: seq<nat>, newIdx: nat, lo: nat) {
    && lo <= |tops|
    && (forall p :: 0 <= p < lo ==> tops[p] < |cards| && cards[tops[p]].newIdx < newIdx)
    && (forall p :: lo <= p < |tops| ==> tops[p] < |cards| && cards[tops[p]].newIdx >= newIdx)
  }

  lemma NothingStacked(ms: seq<Match>)
    ensures Stacked(ms, [], [], [])
  {
  }

  // Where a card goes: the leftmost pile whose top is not smaller.
  method FindPile(ghost ms: seq<Match>, cards: seq<Card>, ghost pile: seq<nat>, pileTops: seq<nat>, newIdx: nat) returns (lo: nat)
    requires Stacked(ms, cards, pile, pileTops)
    ensures lo <= |pileTops| && Fits(cards, pileTops, newIdx, lo)
    ensures lo > 0 ==> pileTops[lo - 1] < |cards|
  {
    hide CardsOf, BackLinks, PilesGrow;
    lo := 0;
    var hi := |pileTops|;
    while lo < hi
      invariant 0 <= lo <= hi <= |pileTops|
      invariant forall p :: 0 <= p < lo ==> cards[pileTops[p]].newIdx < newIdx
      invariant forall p :: hi <= p < |pileTops| ==> cards[pileTops[p]].newIdx >= newIdx
    {
      var mid := lo + (hi - lo) / 2;
      if cards[pileTops[mid]].newIdx < newIdx {
        lo := mid + 1;
      } else {
        hi := mid;
      }
    }
  }

  /** The anchors: a chain of the given matches with no longer one among them. */
  method LongestChain(ms: seq<Match>) returns (anchors: seq<Match>)
    requires OldIncreasing(ms) && NewDistinct(ms)
    ensures ChainIn(anchors, ms)
    ensures forall c :: ChainIn(c, ms) ==> |c| <= |anchors|
  {
    var cards: seq<Card> := [];
    var pileTops: seq<nat> := [];
    ghost var pile: seq<nat> := [];
    hide *;
    NothingStacked(ms);
    EmptyChain(ms);
    for i := 0 to |ms|
      invariant |cards| == i && Stacked(ms, cards, pile, pileTops)
    {
      var m := ms[i];
      var lo := FindPile(ms, cards, pile, pileTops, m.newIdx);
      var back := if lo > 0 then pileTops[lo - 1] else -1;
      var cardIdx := |cards|;
      PutCard(ms, cards, pile, pileTops, m, lo);
      cards := cards + [Card(m.newIdx, m.oldIdx, back)];
      pile := pile + [lo];
      if lo == |pileTops| {
        pileTops := pileTops + [cardIdx];
      } else {
        pileTops := pileTops[lo := cardIdx];
      }
    }
    anchors := [];
    if pileTops != [] {
      anchors := WalkBack(ms, cards, pile, pileTops);
    }
    NoLongerChain(ms, cards, pile, pileTops);
  }

  lemma NoLongerChain(ms: seq<Match>, cards: seq<Card>, pile: seq<nat>, tops: seq<nat>)
    requires OldIncreasing(ms) && |cards| == |ms| && Stacked(ms, cards, pile, tops)
    ensures forall c :: ChainIn(c, ms) ==> |c| <= |tops|
  {
    forall c | ChainIn(c, ms) ensures |c| <= |tops| {
      if c != [] {
        var t := ChainAtMostPiles(ms, pile, c);
      }
    }
  }

  lemma PutCard(ms: seq<Match>, cards: seq<Card>, pile: seq<nat>, tops: seq<nat>, m: Match, lo: nat)
    requires NewDistinct(ms) && Stacked(ms, cards, pile, tops) && |cards| < |ms| && m == ms[|cards|]
    requires lo <= |tops| && Fits(cards, tops, m.newIdx, lo)
    ensures var card := Card(m.newIdx, m.oldIdx, if lo > 0 then tops[lo - 1] else -1);
            Stacked(ms, cards + [card], pile + [lo], if lo == |tops| then tops + [|cards|] else tops[lo := |cards|])
  {
    hide *;
    var card := Card(m.newIdx, m.oldIdx, if lo > 0 then tops[lo - 1] else -1);
    PutPiles(ms, cards, pile, tops, card, lo);
    PutBack(ms, cards, pile, tops, card, lo);
    PutGrow(ms, cards, pile, tops, card, lo);
    Restack(ms, cards + [card], pile + [lo], if lo == |tops| then tops + [|cards|] else tops[lo := |cards|]);
  }

  lemma Restack(ms: seq<Match>, cards: seq<Card>, pile: seq<nat>, tops: seq<nat>)
    requires CardsOf(cards, ms) && Piles(cards, pile, tops) && BackLinks(cards, pile) && PilesGrow(ms, pile)
    ensures Stacked(ms, cards, pile, tops)
  {
    hide CardsOf, Piles, BackLinks, PilesGrow;
  }

  lemma PutBack(ms: seq<Match>, cards: seq<Card>, pile: seq<nat>, tops: seq<nat>, card: Card, lo: nat)
    requires Stacked(ms, cards, pile, tops) && |cards| < |ms|
    requires lo <= |tops| && Fits(cards, tops, card.newIdx, lo)
    requires card.newIdx == ms[|cards|].newIdx && card.oldIdx == ms[|cards|].oldIdx
    requires card.back == if lo > 0 then tops[lo - 1] else -1
    ensures CardsOf(cards + [card], ms) && BackLinks(cards + [card], pile + [lo])
  {
    hide PilesGrow;
    var cards', pile' := cards + [card], pile + [lo];
    forall i: nat | i < |cards'| ensures BackLink(cards', pile', i) {
      assert i < |cards| ==> BackLink(cards, pile, i) && cards'[i] == cards[i] && pile'[i] == pile[i];
    }
  }

  lemma PutGrow(ms: seq<Match>, cards: seq<Card>, pile: seq<nat>, tops: seq<nat>, card: Card, lo: nat)
    requires NewDistinct(ms) && Stacked(ms, cards, pile, tops) && |cards| < |ms|
    requires lo <= |tops| && Fits(cards, tops, card.newIdx, lo) && card.newIdx == ms[|cards|].newIdx
    ensures PilesGrow(ms, pile + [lo])
  {
    hide BackLinks;
    var pile' := pile + [lo];
    forall i, j | 0 <= i < j < |pile'| && ms[i].newIdx < ms[j].newIdx ensures pile'[i] < pile'[j] {
      if j == |cards| {
        assert cards[tops[pile[i]]].newIdx <= cards[i].newIdx < card.newIdx;
      }
    }
  }

  lemma PutPiles(ms: seq<Match>, cards: seq<Card>, pile: seq<nat>, tops: seq<nat>, card: Card, lo: nat)
    requires Stacked(ms, cards, pile, tops) && lo <= |tops| && Fits(cards, tops, card.newIdx, lo)
    ensures Piles(cards + [card], pile + [lo], if lo == |tops| then tops + [|cards|] else tops[lo := |cards|])
  {
    hide CardsOf, BackLinks, PilesGrow, TopIsLeast, TopsAscend, Fits;
    var cards', pile' := cards + [card], pile + [lo];
    var tops' := if lo == |tops| then tops + [|cards|] else tops[lo := |cards|];
    PutOnTop(cards, pile, tops, card, lo, cards', pile', tops');
    PutInOrder(cards, pile, tops, card, lo, cards', pile', tops');
  }

  // The piles after a card is put on pile lo.
  ghost predicate PutOn(cards: seq<Card>, pile: seq<nat>, tops: seq<nat>, card: Card, lo: nat,
                        cards': seq<Card>, pile': seq<nat>, tops': seq<nat>) {
    && cards' == cards + [card] && pile' == pile + [lo] && |tops'| == (if lo == |tops| then |tops| + 1 else |tops|)
    && lo < |tops'| && tops'[lo] == |cards|
    && (forall p :: 0 <= p < |tops| && p != lo ==> tops'[p] == tops[p])
  }

  lemma PutOnTop(cards: seq<Card>, pile: seq<nat>, tops: seq<nat>, card: Card, lo: nat,
                 cards': seq<Card>, pile': seq<nat>, tops': seq<nat>)
    requires Piles(cards, pile, tops) && lo <= |tops| && Fits(cards, tops, card.newIdx, lo)
    requires PutOn(cards, pile, tops, card, lo, cards', pile', tops')
    ensures TopIsLeast(cards', pile', tops')
  {
    forall i | 0 <= i < |cards'| ensures pile'[i] < |tops'| && cards'[tops'[pile'[i]]].newIdx <= cards'[i].newIdx {
      if i < |cards| {
        assert cards[tops[pile[i]]].newIdx <= cards[i].newIdx;
      }
    }
  }

  lemma PutInOrder(cards: seq<Card>, pile: seq<nat>, tops: seq<nat>, card: Card, lo: nat,
                   cards': seq<Card>, pile': seq<nat>, tops': seq<nat>)
    requires Piles(cards, pile, tops) && lo <= |tops| && Fits(cards, tops, card.newIdx, lo)
    requires PutOn(cards, pile, tops, card, lo, cards', pile', tops')
    ensures TopsAscend(cards', tops')
  {
    forall p, q | 0 <= p < q < |tops'| ensures cards'[tops'[p]].newIdx < cards'[tops'[q]].newIdx {
      if p == lo {
        assert cards[tops[lo]].newIdx < cards[tops[q]].newIdx;
      }
    }
  }

  ghost predicate Below(m: Match, m': Match) {
    m.oldIdx < m'.oldIdx && m.newIdx < m'.newIdx
  }

  lemma EmptyChain(ms: seq<Match>)
    ensures ChainIn([], ms)
  {
  }

  lemma GrowChain(c: seq<Match>, ms: seq<Match>, m: Match)
    requires ChainIn(Reversed(c), ms) && m in ms && (c != [] ==> Below(m, c[|c| - 1]))
    ensures ChainIn(Reversed(c + [m]), ms)
  {
    var r := Reversed(c + [m]);
    assert r == [m] + Reversed(c);
    assert c != [] ==> Reversed(c)[0] == c[|c| - 1];
  }

  // Follows the links back from the last pile's top: one card from every pile.
  method WalkBack(ghost ms: seq<Match>, cards: seq<Card>, ghost pile: seq<nat>, pileTops: seq<nat>)
    returns (anchors: seq<Match>)
    requires OldIncreasing(ms) && |cards| == |ms| && pileTops != [] && Stacked(ms, cards, pile, pileTops)
    ensures ChainIn(anchors, ms) && |anchors| == |pileTops|
  {
    hide ChainIn, PilesGrow;
    anchors := [];
    assert Reversed(anchors) == [];
    EmptyChain(ms);
    var idx: int := pileTops[|pileTops| - 1];
    while idx >= 0
      invariant idx < |cards|
      invariant |anchors| + (if idx >= 0 then pile[idx] + 1 else 0) == |pileTops|
      invariant ChainIn(Reversed(anchors), ms)
      invariant idx >= 0 && anchors != [] ==> Below(ms[idx], anchors[|anchors| - 1])
      decreases idx
    {
      var c := cards[idx];
      assert BackLink(cards, pile, idx);
      GrowChain(anchors, ms, ms[idx]);
      anchors := anchors + [Match(c.oldIdx, c.newIdx)];
      idx := c.back;
    }
    anchors := Reversed(anchors);
  }

  // ----- The diff -----

  // A chain of lines that are unique on both sides.
  ghost predicate UniqueChain<T>(a: seq<T>, b: seq<T>, c: seq<Match>) {
    Chain(c) && forall m :: m in c ==> UniqueMatch(a, b, m)
  }

  /** The anchors are a longest chain of lines that are unique on both sides. */
  method PatienceAnchors<T(==,!new)>(a: seq<T>, b: seq<T>) returns (anchors: seq<Match>)
    ensures UniqueChain(a, b, anchors)
    ensures forall c :: UniqueChain(a, b, c) ==> |c| <= |anchors|
  {
    hide UniqueMatch, Chain, OldIncreasing, NewDistinct;
    var matches := UniqueMatches(a, b);
    UniqueIsDistinct(a, b, matches);
    anchors := LongestChain(matches);
    forall c | UniqueChain(a, b, c) ensures |c| <= |anchors| {
      assert ChainIn(c, matches);
    }
  }

  // What the common head and tail leave has these anchors: a longest chain of lines unique to both sides.
  ghost predicate AnchoredBy<T(!new)>(a: seq<T>, b: seq<T>, prefix: nat, suffix: nat, anchors: seq<Match>) {
    && Trimmed(a, b, prefix, suffix)
    && UniqueChain(a[prefix..|a| - suffix], b[prefix..|b| - suffix], anchors)
    && forall c :: UniqueChain(a[prefix..|a| - suffix], b[prefix..|b| - suffix], c) ==> |c| <= |anchors|
  }

  // The lines behind the last anchor, old and new.
  function Behind(prefix: nat, anchors: seq<Match>): (nat, nat) {
    if anchors == [] then (prefix, prefix)
    else
      var m := anchors[|anchors| - 1];
      (prefix + m.oldIdx + 1, prefix + m.newIdx + 1)
  }

  /** What the patience diff gives. Files of which one is empty or that are equal have a shortest script.
      Others keep their common head and tail; between these they keep a longest chain of lines unique to
      both sides, and what is before, between and behind the anchors is again such a script; without
      anchors it is a shortest one. */
  ghost predicate ByPatience<T(!new)>(a: seq<T>, b: seq<T>, ops: seq<EditOp>)
    decreases |a| + |b|, 1, 0
  {
    if a == [] || b == [] || a == b then Shortest(a, b, ops)
    else
      exists prefix: nat, suffix: nat, anchors ::
        AnchoredBy(a, b, prefix, suffix, anchors) &&
        if anchors == [] then AroundShortest(a, b, ops, prefix, suffix)
        else
          exists before, gap :: UpToAnchors(a, b, prefix, anchors, before) && EndsBehind(a, b, ops, prefix, suffix, anchors, before, gap)
  }

  // The script up to the last anchor, and it included: what is up to the one before, a gap, and the anchor.
  ghost predicate UpToAnchors<T(!new)>(a: seq<T>, b: seq<T>, prefix: nat, anchors: seq<Match>, ops: seq<EditOp>)
    decreases |a| + |b|, 0, |anchors|
  {
    if anchors == [] then ops == Diagonal(0, 0, prefix)
    else
      var m := anchors[|anchors| - 1];
      var u, v := prefix + m.oldIdx, prefix + m.newIdx;
      var rest := anchors[..|anchors| - 1];
      exists before, gap ::
        UpToAnchors(a, b, prefix, rest, before) && GapTo(a, b, prefix, rest, u, v, gap)
        && ops == before + ShiftAll(gap, Behind(prefix, rest).0, Behind(prefix, rest).1) + [Equal(u, v)]
  }

  // A script for the gap from the last anchor to a pair of positions.
  ghost predicate GapTo<T(!new)>(a: seq<T>, b: seq<T>, prefix: nat, anchors: seq<Match>, u: nat, v: nat, gap: seq<EditOp>)
    decreases |a| + |b|, 0, 0
  {
    var x, y := Behind(prefix, anchors).0, Behind(prefix, anchors).1;
    && x <= u <= |a| && y <= v <= |b| && u - x + v - y < |a| + |b|
    && ByPatience(a[x..u], b[y..v], gap)
  }

  ghost predicate EndsBehind<T(!new)>(a: seq<T>, b: seq<T>, ops: seq<EditOp>, prefix: nat, suffix: nat, anchors: seq<Match>,
                                      before: seq<EditOp>, gap: seq<EditOp>)
    decreases |a| + |b|, 0, 1
  {
    && prefix + suffix <= |a| && prefix + suffix <= |b|
    && GapTo(a, b, prefix, anchors, |a| - suffix, |b| - suffix, gap)
    && ops == before + ShiftAll(gap, Behind(prefix, anchors).0, Behind(prefix, anchors).1)
              + Diagonal(|a| - suffix, |b| - suffix, suffix)
  }

  method PatienceScript<T(==,!new)>(a: seq<T>, b: seq<T>) returns (ops: seq<EditOp>)
    ensures ValidScript(a, b, ops)
    ensures FreeIfEqual(a, b, ops)
    ensures ByPatience(a, b, ops)
    decreases |a| + |b|, 2
  {
    hide *;
    var n, m := |a|, |b|;
    if n == 0 {
      ops := AllInserts(m);
      OneSided(a, b, ops);
      NotSplit(a, b, ops);
      return;
    }
    if m == 0 {
      ops := AllDeletes(n);
      OneSided(a, b, ops);
      NotSplit(a, b, ops);
      return;
    }
    var prefix, suffix := TrimCommon(a, b);
    var innerOldLen, innerNewLen := n - prefix - suffix, m - prefix - suffix;
    if innerOldLen <= 0 && innerNewLen <= 0 {
      ops := EmitWhole(a, b, n, prefix, suffix);
      NoInterior(a, b, prefix, suffix);
      WholeIsShortest(a, b, ops);
      NotSplit(a, b, ops);
      return;
    }
    TrimmedUnequal(a, b, prefix, suffix);
    var anchors := PatienceAnchors(a[prefix..n - suffix], b[prefix..m - suffix]);
    AreAnchors(a, b, prefix, suffix, anchors);
    if anchors == [] {
      ops := MinimalInterior(a, b, prefix, suffix);
      TrimmedDiffer(a, b, prefix, suffix, ops);
      NoAnchors(a, b, ops, prefix, suffix, anchors);
      return;
    }
    ops := EmitPrefix(a, b, prefix, suffix);
    ghost var before, gap;
    ops, before, gap := BetweenAnchors(a, b, ops, prefix, n - suffix, m - suffix, anchors);
    ops := EmitSuffix(a, b, ops, n, m, prefix, suffix);
    TrimmedDiffer(a, b, prefix, suffix, ops);
    AnchorsKept(a, b, ops, prefix, suffix, anchors, before, gap);
  }

  lemma NotSplit<T(!new)>(a: seq<T>, b: seq<T>, ops: seq<EditOp>)
    requires (a == [] || b == [] || a == b) && Shortest(a, b, ops)
    ensures ByPatience(a, b, ops)
  {
    hide Shortest;
  }

  lemma AreAnchors<T(!new)>(a: seq<T>, b: seq<T>, prefix: nat, suffix: nat, anchors: seq<Match>)
    requires prefix + suffix <= |a| && prefix + suffix <= |b| && Trimmed(a, b, prefix, suffix)
    requires UniqueChain(a[prefix..|a| - suffix], b[prefix..|b| - suffix], anchors)
    requires forall c :: UniqueChain(a[prefix..|a| - suffix], b[prefix..|b| - suffix], c) ==> |c| <= |anchors|
    ensures AnchoredBy(a, b, prefix, suffix, anchors)
  {
    hide UniqueChain;
  }

  lemma NoAnchors<T(!new)>(a: seq<T>, b: seq<T>, ops: seq<EditOp>, prefix: nat, suffix: nat, anchors: seq<Match>)
    requires prefix + suffix <= |a| && prefix + suffix <= |b| && AnchoredBy(a, b, prefix, suffix, anchors)
    requires anchors == [] && a != [] && b != [] && a != b && AroundShortest(a, b, ops, prefix, suffix)
    ensures ByPatience(a, b, ops)
  {
    hide AnchoredBy, AroundShortest, Shortest, UpToAnchors;
  }

  lemma AnchorsKept<T(!new)>(a: seq<T>, b: seq<T>, ops: seq<EditOp>, prefix: nat, suffix: nat, anchors: seq<Match>,
                             before: seq<EditOp>, gap: seq<EditOp>)
    requires prefix + suffix <= |a| && prefix + suffix <= |b| && AnchoredBy(a, b, prefix, suffix, anchors)
    requires anchors != [] && a != [] && b != [] && a != b && UpToAnchors(a, b, prefix, anchors, before)
    requires GapTo(a, b, prefix, anchors, |a| - suffix, |b| - suffix, gap)
    requires ops == before + ShiftAll(gap, Behind(prefix, anchors).0, Behind(prefix, anchors).1)
                    + Diagonal(|a| - suffix, |b| - suffix, suffix)
    ensures ByPatience(a, b, ops)
  {
    hide AnchoredBy, AroundShortest, Shortest, UpToAnchors, GapTo, Diagonal, ShiftAll, Behind;
    assert EndsBehind(a, b, ops, prefix, suffix, anchors, before, gap);
  }

  /** Compares the files between two points and adds the result. */
  method PatienceGap<T(==,!new)>(a: seq<T>, b: seq<T>, ops: seq<EditOp>, x: nat, y: nat, u: nat, v: nat)
    returns (r: seq<EditOp>, ghost gap: seq<EditOp>)
    requires ScriptTo(a, b, ops, x, y) && x <= u <= |a| && y <= v <= |b|
    ensures ScriptTo(a, b, r, u, v) && r == ops + ShiftAll(gap, x, y) && ByPatience(a[x..u], b[y..v], gap)
    decreases u - x + v - y, 3
  {
    hide *;
    r, gap := ops, [];
    if u - x > 0 || v - y > 0 {
      var gapOps := PatienceScript(a[x..u], b[y..v]);
      ScriptToPart(a, b, ops, x, y, gapOps, u, v);
      r := AppendShifted(ops, gapOps, x, y);
      gap := gapOps;
    } else {
      EmptyGap(a[x..u], b[y..v]);
      assert ops + ShiftAll([], x, y) == ops by {
        NothingShifted(x, y);
      }
    }
  }

  lemma EmptyGap<T(!new)>(a: seq<T>, b: seq<T>)
    requires a == [] && b == []
    ensures ByPatience(a, b, [])
  {
    OneSided(a, b, []);
    NotSplit(a, b, []);
  }

  /** The gaps before, between and after the anchors of the interior, and the anchors. */
  method BetweenAnchors<T(==,!new)>(a: seq<T>, b: seq<T>, start: seq<EditOp>, prefix: nat, u: nat, v: nat, anchors: seq<Match>)
    returns (ops: seq<EditOp>, ghost before: seq<EditOp>, ghost gap: seq<EditOp>)
    requires prefix <= u <= |a| && prefix <= v <= |b| && ScriptTo(a, b, start, prefix, prefix) && start == Diagonal(0, 0, prefix)
    requires UniqueChain(a[prefix..u], b[prefix..v], anchors) && anchors != []
    ensures ScriptTo(a, b, ops, u, v) && UpToAnchors(a, b, prefix, anchors, before) && GapTo(a, b, prefix, anchors, u, v, gap)
    ensures ops == before + ShiftAll(gap, Behind(prefix, anchors).0, Behind(prefix, anchors).1)
    decreases u - prefix + v - prefix, 1
  {
    hide *;
    ops := start;
    var prevOld, prevNew := 0, 0;
    NoneYet(a, b, prefix, start);
    assert anchors[..0] == [];
    for i := 0 to |anchors|
      invariant 0 <= prevOld && 0 <= prevNew && prefix + prevOld <= u && prefix + prevNew <= v
      invariant i > 0 ==> prevOld + prevNew > 0
      invariant Behind(prefix, anchors[..i]) == (prefix + prevOld, prefix + prevNew)
      invariant i > 0 ==> prevOld == anchors[i - 1].oldIdx + 1 && prevNew == anchors[i - 1].newIdx + 1
      invariant i == 0 ==> prevOld == 0 == prevNew
      invariant ScriptTo(a, b, ops, prefix + prevOld, prefix + prevNew) && UpToAnchors(a, b, prefix, anchors[..i], ops)
    {
      var anchor := anchors[i];
      AnchorIsEqual(a, b, prefix, u, v, anchors, i);
      var x, y := prefix + anchor.oldIdx, prefix + anchor.newIdx;
      before := ops;
      ops, gap := PatienceGap(a, b, ops, prefix + prevOld, prefix + prevNew, x, y);
      ScriptToKeep(a, b, ops, x, y);
      ops := ops + [Equal(x, y)];
      IsGap(a, b, prefix, anchors[..i], x, y, gap);
      OneMore(a, b, prefix, anchors[..i], anchor, before, gap, ops);
      assert anchors[..i] + [anchor] == anchors[..i + 1];
      prevOld := anchor.oldIdx + 1;
      prevNew := anchor.newIdx + 1;
    }
    assert anchors[..|anchors|] == anchors;
    before := ops;
    ops, gap := PatienceGap(a, b, ops, prefix + prevOld, prefix + prevNew, u, v);
    IsGap(a, b, prefix, anchors, u, v, gap);
  }

  lemma NoneYet<T(!new)>(a: seq<T>, b: seq<T>, prefix: nat, start: seq<EditOp>)
    requires start == Diagonal(0, 0, prefix)
    ensures UpToAnchors(a, b, prefix, [], start) && Behind(prefix, []) == (prefix, prefix)
  {
  }

  lemma IsGap<T(!new)>(a: seq<T>, b: seq<T>, prefix: nat, anchors: seq<Match>, u: nat, v: nat, gap: seq<EditOp>)
    requires var x, y := Behind(prefix, anchors).0, Behind(prefix, anchors).1;
             x <= u <= |a| && y <= v <= |b| && (u < |a| || x > 0) && ByPatience(a[x..u], b[y..v], gap)
    ensures GapTo(a, b, prefix, anchors, u, v, gap)
  {
    hide ByPatience, Behind;
  }

  lemma OneMore<T(!new)>(a: seq<T>, b: seq<T>, prefix: nat, rest: seq<Match>, m: Match, before: seq<EditOp>, gap: seq<EditOp>,
                         ops: seq<EditOp>)
    requires UpToAnchors(a, b, prefix, rest, before) && GapTo(a, b, prefix, rest, prefix + m.oldIdx, prefix + m.newIdx, gap)
    requires ops == before + ShiftAll(gap, Behind(prefix, rest).0, Behind(prefix, rest).1)
                    + [Equal(prefix + m.oldIdx, prefix + m.newIdx)]
    ensures UpToAnchors(a, b, prefix, rest + [m], ops)
    ensures Behind(prefix, rest + [m]) == (prefix + m.oldIdx + 1, prefix + m.newIdx + 1)
  {
    hide GapTo, ShiftAll;
    assert (rest + [m])[..|rest|] == rest;
  }

  lemma UniqueIsDistinct<T>(a: seq<T>, b: seq<T>, ms: seq<Match>)
    requires OldIncreasing(ms) && forall m :: m in ms ==> UniqueMatch(a, b, m)
    ensures NewDistinct(ms)
  {
    forall i, j | 0 <= i < j < |ms| ensures ms[i].newIdx != ms[j].newIdx {
      assert ms[i] in ms && ms[j] in ms;
      assert ms[i].oldIdx != ms[j].oldIdx;
    }
  }

  lemma AnchorIsEqual<T>(a: seq<T>, b: seq<T>, prefix: nat, u: nat, v: nat, anchors: seq<Match>, i: nat)
    requires prefix <= u <= |a| && prefix <= v <= |b|
    requires UniqueChain(a[prefix..u], b[prefix..v], anchors) && i < |anchors|
    ensures var x, y := prefix + anchors[i].oldIdx, prefix + anchors[i].newIdx;
            x < u && y < v && a[x] == b[y]
    ensures i > 0 ==> anchors[i - 1].oldIdx < anchors[i].oldIdx && anchors[i - 1].newIdx < anchors[i].newIdx
  {
    assert anchors[i] in anchors && UniqueMatch(a[prefix..u], b[prefix..v], anchors[i]);
  }
}
