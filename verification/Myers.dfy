/** The greedy O(ND) diff: furthest-reaching points by diagonal, a trace of every round, and a
    backtrack through it. In the minimal mode the script is a shortest one; the other mode may
    give up at a cost cap and start again on what is left. */
module Myers {
  import opened Common
  import opened EditScript

  datatype DiffAlgorithm = MyersAlgorithm | Minimal | Patience | Histogram

  // ----- Furthest-reaching points -----

  // The end of the run of equal lines that starts at x on diagonal k.
  ghost function Snake<T>(a: seq<T>, b: seq<T>, x: nat, k: int): (r: nat)
    requires x >= k
    ensures r >= x
    decreases |a| - x
  {
    if x < |a| && x - k < |b| && a[x] == b[x - k] then Snake(a, b, x + 1, k) else x
  }

  // Exactly d edits lead to the diagonals -d, -d + 2, .., d; this is the one with number i.
  function Diag(d: int, i: int): int {
    2 * i - d
  }

  /** The furthest old index that d edits reach on their diagonal number i, on a grid that goes on
      past both files: beyond them no lines are equal. */
  ghost function Far<T>(a: seq<T>, b: seq<T>, d: nat, i: nat): (x: nat)
    requires i <= d
    ensures x >= Diag(d, i)
    decreases d
  {
    if d == 0 then Snake(a, b, 0, 0)
    else if i == 0 then Snake(a, b, Far(a, b, d - 1, i), Diag(d, i))
    else if i == d then Snake(a, b, Far(a, b, d - 1, i - 1) + 1, Diag(d, i))
    else Snake(a, b, Max(Far(a, b, d - 1, i - 1) + 1, Far(a, b, d - 1, i)), Diag(d, i))
  }

  // Where round d starts on its diagonal i: a move down from i or right from i - 1.
  ghost function FarStart<T>(a: seq<T>, b: seq<T>, d: nat, i: nat): (x: nat)
    requires i <= d
    ensures x >= Diag(d, i)
    ensures Far(a, b, d, i) == Snake(a, b, x, Diag(d, i))
  {
    if d == 0 then 0
    else if ComesDown(a, b, d, i) then Far(a, b, d - 1, i)
    else Far(a, b, d - 1, i - 1) + 1
  }

  ghost predicate ComesDown<T>(a: seq<T>, b: seq<T>, d: nat, i: nat)
    requires i <= d && d > 0
  {
    i == 0 || (i != d && Far(a, b, d - 1, i - 1) < Far(a, b, d - 1, i))
  }

  ghost predicate Finished<T>(a: seq<T>, b: seq<T>, d: nat, i: nat)
    requires i <= d
  {
    Far(a, b, d, i) >= |a| && Far(a, b, d, i) - Diag(d, i) >= |b|
  }

  // ----- Bounds on what d edits can do -----

  lemma {:induction false} SnakeIsMaximal<T>(a: seq<T>, b: seq<T>, x: nat, k: int)
    requires x >= k
    ensures var r := Snake(a, b, x, k);
            !(r < |a| && r - k < |b| && a[r] == b[r - k])
    decreases |a| - x
  {
    if x < |a| && x - k < |b| && a[x] == b[x - k] {
      SnakeIsMaximal(a, b, x + 1, k);
    }
  }

  lemma {:induction false} SnakeMatches<T>(a: seq<T>, b: seq<T>, x: nat, k: int)
    requires x >= k
    ensures var r := Snake(a, b, x, k);
            r == x || (r <= |a| && r - k <= |b|)
    ensures forall i :: x <= i < Snake(a, b, x, k) ==> i < |a| && i - k < |b| && a[i] == b[i - k]
    decreases |a| - x
  {
    if x < |a| && x - k < |b| && a[x] == b[x - k] {
      SnakeMatches(a, b, x + 1, k);
    }
  }

  // No path of cost d ends further on its diagonal than the furthest-reaching point.
  lemma {:induction false} FarIsFurthest<T>(a: seq<T>, b: seq<T>, ops: seq<EditOp>, x: nat, y: nat) returns (i: nat)
    requires Path(a, b, ops, 0, 0, x, y)
    ensures i <= Cost(ops) && x - y == 2 * i - Cost(ops)
    ensures x <= Far(a, b, Cost(ops), i)
    decreases |ops|
  {
    hide *;
    if ops == [] {
      EmptyPath(a, b, x, y);
      i := 0;
    } else {
      var init, o, p, q := LastOp(a, b, ops, x, y);
      i := FarIsFurthest(a, b, init, p, q);
      if o.Equal? {
        StuckAtEnd(a, b, Cost(init), i, p);
      } else {
        FarGrows(a, b, Cost(init), i);
        i := if o.Delete? then i + 1 else i;
      }
    }
  }

  // The last operation of a path, and the point it leaves from.
  lemma LastOp<T>(a: seq<T>, b: seq<T>, ops: seq<EditOp>, x: nat, y: nat)
    returns (init: seq<EditOp>, o: EditOp, p: nat, q: nat)
    requires ops != [] && Path(a, b, ops, 0, 0, x, y)
    ensures |init| < |ops| && Path(a, b, init, 0, 0, p, q)
    ensures Cost(ops) == Cost(init) + if o.Equal? then 0 else 1
    ensures x == p + (if o.Insert? then 0 else 1) && y == q + if o.Delete? then 0 else 1
    ensures o.Equal? ==> p < |a| && q < |b| && a[p] == b[q]
  {
    init, o := ops[..|ops| - 1], ops[|ops| - 1];
    assert ops == init + [o];
    p, q := PathSplit(a, b, init, [o], 0, 0, x, y);
    CostConcat(init, [o]);
    assert [o][1..] == [];
    assert Cost([]) == 0;
  }

  // A furthest-reaching point has no equal lines ahead of it.
  lemma StuckAtEnd<T>(a: seq<T>, b: seq<T>, d: nat, i: nat, x: nat)
    requires i <= d && x <= Far(a, b, d, i) && x < |a|
    requires 0 <= x - (2 * i - d) < |b| && a[x] == b[x - (2 * i - d)]
    ensures x < Far(a, b, d, i)
  {
    SnakeIsMaximal(a, b, FarStart(a, b, d, i), Diag(d, i));
  }

  // Both moves out of a point of round d are within round d + 1.
  lemma FarGrows<T>(a: seq<T>, b: seq<T>, d: nat, i: nat)
    requires i <= d
    ensures Far(a, b, d + 1, i) >= Far(a, b, d, i)
    ensures Far(a, b, d + 1, i + 1) >= Far(a, b, d, i) + 1
  {
  }

  /** Every furthest-reaching point, also one outside the files, comes from a path inside them to
      the nearest point of the box, and saves one edit for each line it is outside. */
  lemma {:induction false} FarIsReached<T>(a: seq<T>, b: seq<T>, d: nat, i: nat) returns (ops: seq<EditOp>)
    requires i <= d
    ensures var x, y := Far(a, b, d, i), Far(a, b, d, i) - Diag(d, i);
            && Path(a, b, ops, 0, 0, Min(x, |a|), Min(y, |b|))
            && Cost(ops) == d - Max(0, x - |a|) - Max(0, y - |b|)
    decreases d
  {
    hide Far, Path, Cost;
    if d == 0 {
      ops := NoOps(a, b);
    } else if ComesDown(a, b, d, i) {
      ops := FarIsReached(a, b, d - 1, i);
      ops := ExtendDown(a, b, ops, Far(a, b, d - 1, i), Far(a, b, d - 1, i) - Diag(d - 1, i));
    } else {
      ops := FarIsReached(a, b, d - 1, i - 1);
      ops := ExtendRight(a, b, ops, Far(a, b, d - 1, i - 1), Far(a, b, d - 1, i - 1) - Diag(d - 1, i - 1));
    }
    ops := AppendSnake(a, b, ops, FarStart(a, b, d, i), Diag(d, i));
  }

  lemma EmptyPath<T>(a: seq<T>, b: seq<T>, x: nat, y: nat)
    requires Path(a, b, [], 0, 0, x, y)
    ensures x == 0 && y == 0 && Cost([]) == 0
  {
  }

  lemma NoOps<T>(a: seq<T>, b: seq<T>) returns (ops: seq<EditOp>)
    ensures Path(a, b, ops, 0, 0, 0, 0) && Cost(ops) == 0
  {
    ops := [];
  }

  // A move past the edge of a file costs nothing inside the box.
  lemma ExtendDown<T>(a: seq<T>, b: seq<T>, ops: seq<EditOp>, x: nat, y: nat) returns (r: seq<EditOp>)
    requires Path(a, b, ops, 0, 0, Min(x, |a|), Min(y, |b|))
    ensures Path(a, b, r, 0, 0, Min(x, |a|), Min(y + 1, |b|))
    ensures Cost(r) == Cost(ops) + if y < |b| then 1 else 0
  {
    r := if y < |b| then ops + [Insert(y)] else ops;
    if y < |b| {
      InsertsPath(a, b, [Insert(y)], Min(x, |a|), y);
      PathConcat(a, b, ops, [Insert(y)], 0, 0, Min(x, |a|), y, Min(x, |a|), y + 1);
    }
  }

  lemma ExtendRight<T>(a: seq<T>, b: seq<T>, ops: seq<EditOp>, x: nat, y: nat) returns (r: seq<EditOp>)
    requires Path(a, b, ops, 0, 0, Min(x, |a|), Min(y, |b|))
    ensures Path(a, b, r, 0, 0, Min(x + 1, |a|), Min(y, |b|))
    ensures Cost(r) == Cost(ops) + if x < |a| then 1 else 0
  {
    r := if x < |a| then ops + [Delete(x)] else ops;
    if x < |a| {
      DeletesPath(a, b, [Delete(x)], x, Min(y, |b|));
      PathConcat(a, b, ops, [Delete(x)], 0, 0, x, Min(y, |b|), x + 1, Min(y, |b|));
    }
  }

  // A path to the start of a snake goes on to its end at no cost.
  lemma AppendSnake<T>(a: seq<T>, b: seq<T>, ops: seq<EditOp>, x0: nat, k: int)
    returns (r: seq<EditOp>)
    requires x0 >= k && Path(a, b, ops, 0, 0, Min(x0, |a|), Min(x0 - k, |b|))
    ensures var x := Snake(a, b, x0, k);
            && Path(a, b, r, 0, 0, Min(x, |a|), Min(x - k, |b|)) && Cost(r) == Cost(ops)
            && (x == x0 || (x <= |a| && x - k <= |b|))
  {
    var x := Snake(a, b, x0, k);
    SnakeMatches(a, b, x0, k);
    r := ops;
    if x > x0 {
      var run := Diagonal(x0, x0 - k, x - x0);
      SnakePath(a, b, x0, x0 - k, x - x0);
      PathConcat(a, b, ops, run, 0, 0, x0, x0 - k, x, x - k);
      DiagonalIsFree(x0, x0 - k, x - x0);
      r := ops + run;
    }
  }

  lemma SnakePath<T>(a: seq<T>, b: seq<T>, x: nat, y: nat, len: nat)
    requires x + len <= |a| && y + len <= |b|
    requires forall i :: x <= i < x + len ==> i - (x - y) < |b| && a[i] == b[i - (x - y)]
    ensures Path(a, b, Diagonal(x, y, len), x, y, x + len, y + len)
  {
    var s, t := a[x..x + len], b[y..y + len];
    forall i | 0 <= i < len ensures s[i] == t[i] {
      var j := x + i;
      assert a[j] == b[j - (x - y)];
    }
    DiagonalPath(a, b, x, y, len);
  }

  lemma {:induction false} DiagonalIsFree(x: nat, y: nat, len: nat)
    ensures Cost(Diagonal(x, y, len)) == 0
    decreases len
  {
    if len > 0 {
      DiagonalIsFree(x + 1, y + 1, len - 1);
      assert Diagonal(x, y, len)[1..] == Diagonal(x + 1, y + 1, len - 1);
    }
  }

  /** The first round that finishes does so at the corner of both files and nowhere outside, and
      its number is the cost of a shortest script. */
  lemma FirstFinishIsCorner<T>(a: seq<T>, b: seq<T>, d: nat, i: nat)
    requires i <= d && Finished(a, b, d, i)
    requires NoneFinished(a, b, d, 0)
    ensures Far(a, b, d, i) == |a| && 2 * i - d == |a| - |b|
    ensures d == |a| + |b| - 2 * Lcs(a, b, 0, 0)
    ensures forall s :: ValidScript(a, b, s) ==> d <= Cost(s)
  {
    hide Far, Path, Cost, Lcs;
    forall s | ValidScript(a, b, s) ensures d <= Cost(s) {
      ScriptFinishes(a, b, s);
    }
    var ops := FarIsReached(a, b, d, i);
    assert ValidScript(a, b, ops);
    ShortestIffLcsCost(a, b, ops);
  }

  // The round with the number of a script's cost has a finished point.
  lemma ScriptFinishes<T>(a: seq<T>, b: seq<T>, s: seq<EditOp>)
    requires ValidScript(a, b, s)
    ensures exists i: nat :: i <= Cost(s) && Finished(a, b, Cost(s), i)
  {
    var i := FarIsFurthest(a, b, s, |a|, |b|);
    assert Finished(a, b, Cost(s), i);
  }

  // One round for every line of both files is enough.
  lemma SomeRoundFinishes<T>(a: seq<T>, b: seq<T>, d: nat)
    requires NoneFinished(a, b, d, 0)
    ensures d <= |a| + |b|
  {
    var s := LcsAttained(a, b, 0, 0);
    hide Far, Path, Cost, Lcs;
    PathBounds(a, b, s, 0, 0, |a|, |b|);
    ScriptFinishes(a, b, s);
  }

  // ----- Giving up -----

  ghost predicate InBox<T>(a: seq<T>, b: seq<T>, d: nat, i: nat)
    requires i <= d
  {
    Far(a, b, d, i) <= |a| && Far(a, b, d, i) - Diag(d, i) <= |b|
  }

  ghost function Progress<T>(a: seq<T>, b: seq<T>, d: nat, i: nat): int
    requires i <= d
  {
    2 * Far(a, b, d, i) - Diag(d, i)
  }

  // A path inside the files goes on for so many edits, if it has that far to go.
  lemma {:induction false} GoOn<T>(a: seq<T>, b: seq<T>, ops: seq<EditOp>, x: nat, y: nat, n: nat)
    returns (r: seq<EditOp>, u: nat, v: nat)
    requires Path(a, b, ops, 0, 0, x, y) && x <= |a| && y <= |b| && n <= |a| - x + |b| - y
    ensures Path(a, b, r, 0, 0, u, v) && u <= |a| && v <= |b|
    ensures Cost(r) == Cost(ops) + n && u + v == x + y + n
    decreases n
  {
    hide Path, Cost;
    r, u, v := ops, x, y;
    if n > 0 {
      if y < |b| {
        r := ExtendDown(a, b, ops, x, y);
        r, u, v := GoOn(a, b, r, x, y + 1, n - 1);
      } else {
        r := ExtendRight(a, b, ops, x, y);
        r, u, v := GoOn(a, b, r, x + 1, y, n - 1);
      }
    }
  }

  /** As long as no round has finished, some furthest-reaching point of the round is inside both files
      and has as many lines behind it as any path of as many edits. */
  lemma {:induction false} SomeFartherInBox<T>(a: seq<T>, b: seq<T>, d: nat, ops: seq<EditOp>, x: nat, y: nat) returns (i: nat)
    requires Path(a, b, ops, 0, 0, x, y) && x <= |a| && y <= |b| && Cost(ops) == d
    requires NoneFinished(a, b, d + 1, 0)
    ensures i <= d && InBox(a, b, d, i) && x + y <= Progress(a, b, d, i)
    decreases |a| + |b| - (x + y)
  {
    hide Far, Path, Cost, NoneFinished;
    i := FarIsFurthest(a, b, ops, x, y);
    if !InBox(a, b, d, i) {
      var u, v := Far(a, b, d, i), Far(a, b, d, i) - Diag(d, i);
      var over := Max(0, u - |a|) + Max(0, v - |b|);
      var clipped := FarIsReached(a, b, d, i);
      var cx, cy := Min(u, |a|), Min(v, |b|);
      assert x <= cx && y <= cy && over > 0;
      if over >= |a| - cx + |b| - cy {
        var r, rx, ry := GoOn(a, b, clipped, cx, cy, |a| - cx + |b| - cy);
        NotYetDone(a, b, d, r);
      }
      var r, rx, ry := GoOn(a, b, clipped, cx, cy, over);
      i := SomeFartherInBox(a, b, d, r, rx, ry);
    }
  }

  lemma NotYetDone<T>(a: seq<T>, b: seq<T>, d: nat, s: seq<EditOp>)
    requires ValidScript(a, b, s) && NoneFinished(a, b, d + 1, 0)
    ensures Cost(s) > d
  {
    hide Far, Path, Cost;
    ScriptFinishes(a, b, s);
  }

  // ----- The program -----

  // The first of r, 2 r, 4 r, ... that is at least the square root of n.
  ghost function PowerFrom(n: nat, r: nat): nat
    requires r >= 1
    decreases n - r
  {
    if r * r >= n then r
    else
      SquareIsLarger(r);
      PowerFrom(n, r * 2)
  }

  // The smallest power of two that is at least the square root of n.
  method Bogosqrt(n: nat) returns (r: nat)
    ensures r * r >= n && r == PowerFrom(n, 1)
    ensures exists e: nat :: r == Pow2(e) && (e == 0 || Pow2(e - 1) * Pow2(e - 1) < n)
  {
    r := 1;
    ghost var e: nat := 0;
    while r * r < n
      invariant r >= 1 && r == Pow2(e) && PowerFrom(n, 1) == PowerFrom(n, r)
      invariant e == 0 || Pow2(e - 1) * Pow2(e - 1) < n
      decreases n - r
    {
      SquareIsLarger(r);
      r := r * 2;
      e := e + 1;
    }
  }

  lemma SquareIsLarger(r: int)
    requires r >= 1
    ensures r * r >= r
  {
  }

  function Pow2(e: nat): nat {
    if e == 0 then 1 else 2 * Pow2(e - 1)
  }

  // vs holds the furthest-reaching points of round d, diagonal k at index offset + k.
  ghost predicate HoldsRound<T>(a: seq<T>, b: seq<T>, vs: seq<int>, offset: nat, d: nat) {
    d < offset && |vs| == 2 * offset + 1 &&
    forall i: nat :: i <= d ==> vs[offset + Diag(d, i)] == Far(a, b, d, i)
  }

  ghost predicate HoldsTrace<T>(a: seq<T>, b: seq<T>, trace: seq<seq<int>>, offset: nat, d: nat) {
    d < |trace| && forall e :: 0 < e <= d ==> HoldsRound(a, b, trace[e], offset, e - 1)
  }

  /** Walks back through the saved rounds from a furthest-reaching point inside both files. The
      script it returns leads there and costs exactly the number of rounds. */
  method BacktrackTrace<T>(ghost a: seq<T>, ghost b: seq<T>, trace: seq<seq<int>>, finalD: nat,
                           startX: nat, startY: nat, offset: nat, ghost diagonal: nat)
    returns (ops: seq<EditOp>)
    requires HoldsTrace(a, b, trace, offset, finalD)
    requires startX <= |a| && startY <= |b| && diagonal <= finalD
    requires startX - startY == 2 * diagonal - finalD && startX == Far(a, b, finalD, diagonal)
    ensures Path(a, b, ops, 0, 0, startX, startY)
    ensures Cost(ops) == finalD
  {
    var x, y := startX, startY;
    ops := [];
    hide Far, FarStart, ComesDown, Snake, Path, Cost, HoldsRound;
    NothingYet(a, b, startX, startY);
    var d := finalD;
    ghost var i := diagonal;
    while d > 0
      invariant 0 <= x <= |a| && 0 <= y <= |b| && 0 <= i <= d <= finalD
      invariant x - y == 2 * i - d && x == Far(a, b, d, i)
      invariant LeadsOn(a, b, ops, x, y, startX, startY, finalD - d)
    {
      var prevV := trace[d];
      var k := x - y;
      ComesFrom(a, b, prevV, offset, d, i);
      RoundRuns(a, b, d, i);
      ghost var x0 := FarStart(a, b, d, i);
      var prevK;
      if k == -d || (k != d && prevV[offset + k - 1] < prevV[offset + k + 1]) {
        prevK := k + 1;
      } else {
        prevK := k - 1;
        i := i - 1;
      }
      var prevX := prevV[offset + prevK];
      var prevY := prevX - prevK;
      while x > prevX && y > prevY
        invariant x0 <= x <= |a| && x - y == k && 0 <= y <= |b|
        invariant LeadsOn(a, b, ops, x, y, startX, startY, finalD - d)
        decreases x
      {
        x := x - 1;
        y := y - 1;
        PushOp(a, b, ops, Equal(x, y), x, y, startX, startY, finalD - d);
        ops := ops + [Equal(x, y)];
      }
      if x > prevX {
        x := x - 1;
        PushOp(a, b, ops, Delete(x), x, y, startX, startY, finalD - d);
        ops := ops + [Delete(x)];
      } else if y > prevY {
        y := y - 1;
        PushOp(a, b, ops, Insert(y), x, y, startX, startY, finalD - d);
        ops := ops + [Insert(y)];
      }
      d := d - 1;
    }
    RoundRuns(a, b, 0, 0);
    while x > 0 && y > 0
      invariant 0 <= x <= |a| && y <= |b| && x == y && x <= Far(a, b, 0, 0)
      invariant LeadsOn(a, b, ops, x, y, startX, startY, finalD)
    {
      x := x - 1;
      y := y - 1;
      PushOp(a, b, ops, Equal(x, y), x, y, startX, startY, finalD);
      ops := ops + [Equal(x, y)];
    }
    ops := Reversed(ops);
  }

  // The operations collected backwards lead from (x, y) to (u, v) at the given cost.
  ghost predicate LeadsOn<T>(a: seq<T>, b: seq<T>, ops: seq<EditOp>, x: nat, y: nat, u: nat, v: nat, cost: nat) {
    Path(a, b, Reversed(ops), x, y, u, v) && Cost(Reversed(ops)) == cost
  }

  lemma NothingYet<T>(a: seq<T>, b: seq<T>, x: nat, y: nat)
    ensures LeadsOn(a, b, [], x, y, x, y, 0)
  {
    assert Reversed<EditOp>([]) == [];
  }

  lemma PushOp<T>(a: seq<T>, b: seq<T>, ops: seq<EditOp>, o: EditOp, x: nat, y: nat, u: nat, v: nat, cost: nat)
    requires x <= |a| && y <= |b|
    requires var x' := if o.Insert? then x else x + 1;
             var y' := if o.Delete? then y else y + 1;
             LeadsOn(a, b, ops, x', y', u, v, cost) && x' <= |a| && y' <= |b|
    requires match o
             case Equal(i, j) => i == x && j == y && a[x] == b[y]
             case Delete(i) => i == x
             case Insert(j) => j == y
    ensures LeadsOn(a, b, ops + [o], x, y, u, v, if o.Equal? then cost else cost + 1)
  {
    var r := Reversed(ops + [o]);
    assert r[0] == o && r[1..] == Reversed(ops);
  }

  lemma RoundEntry<T>(a: seq<T>, b: seq<T>, vs: seq<int>, offset: nat, d: nat, i: nat)
    requires i <= d && HoldsRound(a, b, vs, offset, d)
    ensures 0 < offset + 2 * i - d < |vs| - 1 && vs[offset + 2 * i - d] == Far(a, b, d, i) >= Max(0, 2 * i - d)
  {
    hide Far;
    var _ := Diag(d, i);
  }

  // The saved round tells from which of its points round d started on diagonal k = 2 i - d.
  lemma StepBack<T>(a: seq<T>, b: seq<T>, prevV: seq<int>, offset: nat, d: nat, i: nat)
    requires i <= d && d > 0 && HoldsRound(a, b, prevV, offset, d - 1)
    ensures i != 0 ==> 0 <= offset + (2 * i - d) - 1 < |prevV| && prevV[offset + (2 * i - d) - 1] == Far(a, b, d - 1, i - 1)
    ensures i != d ==> 0 <= offset + (2 * i - d) + 1 < |prevV| && prevV[offset + (2 * i - d) + 1] == Far(a, b, d - 1, i)
  {
    hide *;
    if i != 0 {
      RoundEntry(a, b, prevV, offset, d - 1, i - 1);
    }
    if i != d {
      RoundEntry(a, b, prevV, offset, d - 1, i);
    }
  }

  // Which diagonal of the round before a round starts from.
  lemma ComesFrom<T>(a: seq<T>, b: seq<T>, prevV: seq<int>, offset: nat, d: nat, i: nat)
    requires i <= d && d > 0 && HoldsRound(a, b, prevV, offset, d - 1)
    ensures var k: int := 2 * i - d;
            && (k != 0 - d ==> 0 <= offset + k - 1 < |prevV|) && (k != d ==> 0 <= offset + k + 1 < |prevV|)
            && if k == 0 - d || (k != d && prevV[offset + k - 1] < prevV[offset + k + 1])
               then i < d && prevV[offset + k + 1] == Far(a, b, d - 1, i) == FarStart(a, b, d, i)
               else i > 0 && prevV[offset + k - 1] == Far(a, b, d - 1, i - 1) == FarStart(a, b, d, i) - 1
  {
    hide *;
    StepBack(a, b, prevV, offset, d, i);
    StartFromRound(a, b, d, i);
  }

  // From its start to its end a round follows equal lines.
  lemma RoundRuns<T>(a: seq<T>, b: seq<T>, d: nat, i: nat)
    requires i <= d
    ensures 2 * i - d <= FarStart(a, b, d, i) <= Far(a, b, d, i)
    ensures RunsDiagonally(a, b, FarStart(a, b, d, i), Far(a, b, d, i), 2 * i - d)
    ensures d == 0 ==> FarStart(a, b, d, i) == 0
  {
    hide Far, Snake, FarStart, ComesDown, Diag;
    FromStart(a, b, d, i);
    SnakeMatches(a, b, FarStart(a, b, d, i), 2 * i - d);
  }

  lemma StartFromRound<T>(a: seq<T>, b: seq<T>, d: nat, i: nat)
    requires i <= d && d > 0
    ensures ComesDown(a, b, d, i) ==> i != d && FarStart(a, b, d, i) == Far(a, b, d - 1, i)
    ensures !ComesDown(a, b, d, i) ==> i != 0 && FarStart(a, b, d, i) == Far(a, b, d - 1, i - 1) + 1
    ensures ComesDown(a, b, d, i) <==> i == 0 || (i != d && Far(a, b, d - 1, i - 1) < Far(a, b, d - 1, i))
  {
    hide Far;
  }

  // The old lines from x to x' equal the new lines on diagonal k.
  ghost predicate RunsDiagonally<T>(a: seq<T>, b: seq<T>, x: nat, x': nat, k: int) {
    forall j :: x <= j < x' ==> j < |a| && 0 <= j - k < |b| && a[j] == b[j - k]
  }

  // ----- The search -----

  /** In the middle of round d: the diagonals numbered below i hold this round, those of the round
      before are still there. Before round 0 there is only the start, on diagonal 1. */
  ghost predicate HalfRound<T>(a: seq<T>, b: seq<T>, vs: seq<int>, offset: nat, d: nat, i: nat) {
    && i <= d + 1 && d <= offset && |vs| == 2 * offset + 1
    && (d == 0 ==> 0 < offset && vs[offset + 1] == 0)
    && (d > 0 ==> HoldsRound(a, b, vs, offset, d - 1))
    && forall j: nat :: j < i ==> vs[offset + Diag(d, j)] == Far(a, b, d, j)
  }

  // Every finished point belongs to a later round than d, or to round d and a diagonal from i on.
  ghost predicate NoneFinished<T>(a: seq<T>, b: seq<T>, d: nat, i: nat) {
    && (forall e: nat, j: nat :: j <= e < d ==> !Finished(a, b, e, j))
    && (forall j: nat :: j < i && j <= d ==> !Finished(a, b, d, j))
  }

  lemma BeforeFirstRound<T>(a: seq<T>, b: seq<T>, vs: seq<int>, offset: nat)
    requires offset > 0 && |vs| == 2 * offset + 1 && vs[offset + 1] == 0
    ensures HalfRound(a, b, vs, offset, 0, 0) && NoneFinished(a, b, 0, 0)
  {
  }

  lemma SaveRound<T>(a: seq<T>, b: seq<T>, trace: seq<seq<int>>, vs: seq<int>, offset: nat, d: nat)
    requires HalfRound(a, b, vs, offset, d, 0) && |trace| == d
    requires d > 0 ==> HoldsTrace(a, b, trace, offset, d - 1)
    ensures HoldsTrace(a, b, trace + [vs], offset, d)
  {
    hide HoldsRound;
  }

  lemma NextRound<T>(a: seq<T>, b: seq<T>, vs: seq<int>, offset: nat, d: nat)
    requires HalfRound(a, b, vs, offset, d, d + 1) && NoneFinished(a, b, d, d + 1)
    ensures NoneFinished(a, b, d + 1, 0)
    ensures d < offset ==> HoldsRound(a, b, vs, offset, d) && HalfRound(a, b, vs, offset, d + 1, 0)
  {
    hide Far, Finished;
  }

  lemma SetEntry<T>(a: seq<T>, b: seq<T>, vs: seq<int>, offset: nat, d: nat, i: nat)
    requires HalfRound(a, b, vs, offset, d, i) && i <= d
    ensures 0 <= offset + (2 * i - d) < |vs|
    ensures HalfRound(a, b, vs[offset + (2 * i - d) := Far(a, b, d, i)], offset, d, i + 1)
  {
    hide Far;
    var us := vs[offset + Diag(d, i) := Far(a, b, d, i)];
    if d > 0 {
      KeepsRound(a, b, vs, offset, d - 1, i, Far(a, b, d, i));
    }
    hide HoldsRound;
    forall j: nat | j < i + 1 ensures us[offset + Diag(d, j)] == Far(a, b, d, j) {
    }
  }

  // Round d + 1 does not overwrite round d.
  lemma KeepsRound<T>(a: seq<T>, b: seq<T>, vs: seq<int>, offset: nat, d: nat, i: nat, x: int)
    requires HoldsRound(a, b, vs, offset, d) && i <= d + 1
    ensures 0 <= offset + (2 * i - (d + 1)) < |vs|
    ensures HoldsRound(a, b, vs[offset + (2 * i - (d + 1)) := x], offset, d)
  {
    hide Far;
    var us := vs[offset + (2 * i - (d + 1)) := x];
    forall j: nat | j <= d ensures us[offset + Diag(d, j)] == Far(a, b, d, j) {
      assert vs[offset + Diag(d, j)] == Far(a, b, d, j);
    }
  }

  lemma AdvanceFrom<T>(a: seq<T>, b: seq<T>, vs: seq<int>, offset: nat, d: nat, i: nat)
    requires HalfRound(a, b, vs, offset, d, i) && i <= d
    ensures i != 0 ==> 0 <= offset + (2 * i - d) - 1 < |vs|
    ensures i == 0 || i != d ==> 0 <= offset + (2 * i - d) + 1 < |vs|
    ensures FarStart(a, b, d, i) ==
            if i == 0 || (i != d && vs[offset + (2 * i - d) - 1] < vs[offset + (2 * i - d) + 1])
            then vs[offset + (2 * i - d) + 1]
            else vs[offset + (2 * i - d) - 1] + 1
  {
    hide Far, HoldsRound;
    if d > 0 {
      StepBack(a, b, vs, offset, d, i);
      StartFromRound(a, b, d, i);
    }
  }

  // The furthest point of round d on diagonal k.
  method Advance<T(==)>(a: seq<T>, b: seq<T>, v: array<int>, offset: nat, d: nat, k: int, ghost i: nat)
    returns (x: int)
    requires HalfRound(a, b, v[..], offset, d, i) && i <= d && k == 2 * i - d
    ensures x == Far(a, b, d, i)
  {
    hide *;
    AdvanceFrom(a, b, v[..], offset, d, i);
    ghost var start := FarStart(a, b, d, i);
    FromStart(a, b, d, i);
    if -k == d || (k != d && v[offset + k - 1] < v[offset + k + 1]) {
      x := v[offset + k + 1];
    } else {
      x := v[offset + k - 1] + 1;
    }
    var y := x - k;
    while x < |a| && y < |b| && a[x] == b[y]
      invariant x >= 0 && y == x - k >= 0
      invariant Snake(a, b, x, k) == Snake(a, b, start, k)
      decreases |a| - x
    {
      SnakeStep(a, b, x, k);
      x := x + 1;
      y := y + 1;
    }
    SnakeStep(a, b, x, k);
  }

  lemma FromStart<T>(a: seq<T>, b: seq<T>, d: nat, i: nat)
    requires i <= d
    ensures FarStart(a, b, d, i) >= 2 * i - d
    ensures d == 0 ==> FarStart(a, b, d, i) == 0
    ensures Far(a, b, d, i) == Snake(a, b, FarStart(a, b, d, i), 2 * i - d)
  {
    hide Far;
    var _ := Diag(d, i);
  }

  lemma SnakeStep<T>(a: seq<T>, b: seq<T>, x: nat, k: int)
    requires x >= k
    ensures Snake(a, b, x, k) ==
            if x < |a| && x - k < |b| && a[x] == b[x - k] then Snake(a, b, x + 1, k) else x
  {
  }

  ghost predicate MostProgress<T>(a: seq<T>, b: seq<T>, d: nat, best: nat) {
    && best <= d && InBox(a, b, d, best)
    && forall i: nat :: i <= d && InBox(a, b, d, i) ==> Progress(a, b, d, i) <= Progress(a, b, d, best)
  }

  ghost predicate NoneInBox<T>(a: seq<T>, b: seq<T>, d: nat) {
    forall i: nat :: i <= d ==> !InBox(a, b, d, i)
  }

  /** The furthest-reaching point of round d inside both files with the most lines behind it, or -1
      if all points are outside. */
  method BestEndpoint<T>(ghost a: seq<T>, ghost b: seq<T>, v: array<int>, n: nat, m: nat, offset: nat, d: nat)
    returns (bestX: int, bestY: int, ghost best: nat)
    requires n == |a| && m == |b| && HoldsRound(a, b, v[..], offset, d)
    ensures bestX >= 0 ==> bestX <= n && 0 <= bestY <= m
    ensures bestX >= 0 ==>
              MostProgress(a, b, d, best) && best <= d && bestX == Far(a, b, d, best) && bestY == bestX - (2 * best - d)
    ensures bestX < 0 ==> NoneInBox(a, b, d)
  {
    hide Far, HoldsRound;
    bestX, bestY, best := -1, -1, 0;
    var k: int := 0 - d;
    ghost var i: nat := 0;
    while k <= d
      invariant k == 2 * i - d && i <= d + 1
      invariant bestX >= 0 ==> bestX <= n && 0 <= bestY <= m
      invariant bestX >= 0 ==>
                  && best < i && InBox(a, b, d, best) && bestX == Far(a, b, d, best) && bestY == bestX - (2 * best - d)
                  && forall j: nat :: j < i && InBox(a, b, d, j) ==> Progress(a, b, d, j) <= Progress(a, b, d, best)
      invariant bestX < 0 ==> forall j: nat :: j < i ==> !InBox(a, b, d, j)
    {
      RoundEntry(a, b, v[..], offset, d, i);
      var x := v[offset + k];
      if x >= 0 {
        var y := x - k;
        if !(x > n || y > m || y < 0) {
          if bestX < 0 || x + y > bestX + bestY {
            bestX, bestY, best := x, y, i;
          }
        }
      }
      k := k + 2;
      i := i + 1;
    }
  }

  // Adds the operations of a later part of the files, moved to where that part begins.
  method AppendShifted(ops: seq<EditOp>, tail: seq<EditOp>, dx: nat, dy: nat) returns (r: seq<EditOp>)
    ensures r == ops + ShiftAll(tail, dx, dy)
  {
    r := ops;
    for i := 0 to |tail|
      invariant r == ops + ShiftAll(tail, dx, dy)[..i]
    {
      r := r + [tail[i].Shift(dx, dy)];
    }
  }

  method AllInserts(m: nat) returns (ops: seq<EditOp>)
    ensures |ops| == m && forall j :: 0 <= j < m ==> ops[j] == Insert(j)
  {
    ops := [];
    for j := 0 to m
      invariant |ops| == j && forall i :: 0 <= i < j ==> ops[i] == Insert(i)
    {
      ops := ops + [Insert(j)];
    }
  }

  method AllDeletes(n: nat) returns (ops: seq<EditOp>)
    ensures |ops| == n && forall j :: 0 <= j < n ==> ops[j] == Delete(j)
  {
    ops := [];
    for i := 0 to n
      invariant |ops| == i && forall j :: 0 <= j < i ==> ops[j] == Delete(j)
    {
      ops := ops + [Delete(i)];
    }
  }

  ghost predicate Shortest<T>(a: seq<T>, b: seq<T>, ops: seq<EditOp>) {
    && Cost(ops) == |a| + |b| - 2 * Lcs(a, b, 0, 0)
    && forall s :: ValidScript(a, b, s) ==> Cost(ops) <= Cost(s)
  }

  // Equal files are kept whole.
  ghost predicate FreeIfEqual<T>(a: seq<T>, b: seq<T>, ops: seq<EditOp>) {
    a == b ==> Cost(ops) == 0
  }

  const FREE_COST := 256

  // How many edits the plain mode looks for before it may give up.
  ghost function CostLimit(n: nat): nat {
    var root := PowerFrom(n, 1);
    if root < FREE_COST then FREE_COST else root
  }

  lemma {:induction false} PowerFromMeans(n: nat, e: nat) returns (f: nat)
    requires e == 0 || Pow2(e - 1) * Pow2(e - 1) < n
    ensures Pow2(e) >= 1 && PowerFrom(n, Pow2(e)) == Pow2(f) && Pow2(f) * Pow2(f) >= n && (f == 0 || Pow2(f - 1) * Pow2(f - 1) < n)
    decreases n - Pow2(e)
  {
    PowerIsPositive(e);
    f := e;
    if Pow2(e) * Pow2(e) < n {
      SquareIsLarger(Pow2(e));
      f := PowerFromMeans(n, e + 1);
    }
  }

  lemma {:induction false} PowerIsPositive(e: nat)
    ensures Pow2(e) >= 1
  {
    if e > 0 {
      PowerIsPositive(e - 1);
    }
  }

  /** The limit is the least power of two whose square is at least the number of lines, but at least 256. */
  lemma CostLimitMeans(n: nat) returns (e: nat)
    ensures CostLimit(n) == if Pow2(e) < 256 then 256 else Pow2(e)
    ensures Pow2(e) * Pow2(e) >= n && (e == 0 || Pow2(e - 1) * Pow2(e - 1) < n)
  {
    assert Pow2(0) == 1;
    e := PowerFromMeans(n, 0);
  }

  // The script is a head of so many edits and a script for the rest, moved behind it; and no path of as
  // many edits inside the files has more lines behind it than the head.
  ghost predicate CutAt<T>(a: seq<T>, b: seq<T>, ops: seq<EditOp>, d: nat, head: seq<EditOp>, tail: seq<EditOp>, x: nat, y: nat) {
    && x <= |a| && y <= |b| && x + y > 0 && ops == head + ShiftAll(tail, x, y)
    && Path(a, b, head, 0, 0, x, y) && Cost(head) == d
    && forall p, u: nat, v: nat :: Path(a, b, p, 0, 0, u, v) && u <= |a| && v <= |b| && Cost(p) == d ==> u + v <= x + y
  }

  // What the plain mode gives: a shortest script, if that has no more edits than the limit or a file is
  // empty; otherwise as far as the limit leads, and then the same again for the rest of the files.
  ghost predicate PlainScript<T(!new)>(a: seq<T>, b: seq<T>, ops: seq<EditOp>)
    decreases |a| + |b|
  {
    var limit := CostLimit(|a| + |b|);
    if a == [] || b == [] || |a| + |b| - 2 * Lcs(a, b, 0, 0) <= limit then Shortest(a, b, ops)
    else
      exists head, tail, x: nat, y: nat ::
        CutAt(a, b, ops, limit, head, tail, x, y) && PlainScript(a[x..], b[y..], tail)
  }

  lemma CutIsPlain<T(!new)>(a: seq<T>, b: seq<T>, ops: seq<EditOp>, head: seq<EditOp>, tail: seq<EditOp>, x: nat, y: nat)
    requires a != [] && b != [] && |a| + |b| - 2 * Lcs(a, b, 0, 0) > CostLimit(|a| + |b|)
    requires CutAt(a, b, ops, CostLimit(|a| + |b|), head, tail, x, y) && PlainScript(a[x..], b[y..], tail)
    ensures PlainScript(a, b, ops)
  {
    hide CutAt, Lcs, CostLimit;
  }

  lemma ShortestIsPlain<T(!new)>(a: seq<T>, b: seq<T>, ops: seq<EditOp>)
    requires Shortest(a, b, ops)
    requires a == [] || b == [] || |a| + |b| - 2 * Lcs(a, b, 0, 0) <= CostLimit(|a| + |b|)
    ensures PlainScript(a, b, ops)
  {
    hide Shortest, Lcs, CostLimit;
  }

  // The best point of a round makes a cut.
  lemma BestIsCut<T>(a: seq<T>, b: seq<T>, d: nat, best: nat, head: seq<EditOp>, tail: seq<EditOp>, x: nat, y: nat)
    requires NoneFinished(a, b, d + 1, 0) && MostProgress(a, b, d, best) && best <= d
    requires x == Far(a, b, d, best) && x - y == 2 * best - d && x <= |a| && y <= |b| && x + y > 0
    requires Path(a, b, head, 0, 0, x, y) && Cost(head) == d
    ensures CutAt(a, b, head + ShiftAll(tail, x, y), d, head, tail, x, y)
  {
    hide Far, Path, Cost, NoneFinished, InBox;
    forall p, u: nat, v: nat | Path(a, b, p, 0, 0, u, v) && u <= |a| && v <= |b| && Cost(p) == d ensures u + v <= x + y {
      var i := SomeFartherInBox(a, b, d, p, u, v);
    }
    var k := Diag(d, best);
  }

  // Before a round finishes there is a point inside the files.
  lemma SomeInBox<T>(a: seq<T>, b: seq<T>, d: nat)
    requires NoneFinished(a, b, d + 1, 0) && d <= |a| + |b|
    ensures !NoneInBox(a, b, d)
  {
    hide Far, Path, Cost, NoneFinished, InBox;
    var ops := NoOps(a, b);
    var r, x, y := GoOn(a, b, ops, 0, 0, d);
    var i := SomeFartherInBox(a, b, d, r, x, y);
  }

  ghost function LimitFor(algorithm: DiffAlgorithm, maxD: nat): nat {
    if algorithm == MyersAlgorithm && CostLimit(maxD) <= maxD then CostLimit(maxD) else maxD
  }

  lemma LimitForIs(algorithm: DiffAlgorithm, maxD: nat)
    ensures LimitFor(algorithm, maxD) ==
            if algorithm != MyersAlgorithm then maxD
            else
              var root := PowerFrom(maxD, 1);
              var limit := if root < FREE_COST then FREE_COST else root;
              if limit > maxD then maxD else limit
  {
  }

  lemma LimitForBounds(algorithm: DiffAlgorithm, maxD: nat)
    ensures LimitFor(algorithm, maxD) <= maxD && (maxD > 0 ==> LimitFor(algorithm, maxD) > 0)
    ensures LimitFor(algorithm, maxD) < maxD ==> algorithm == MyersAlgorithm && CostLimit(maxD) == LimitFor(algorithm, maxD)
    ensures LimitFor(algorithm, maxD) == maxD && algorithm == MyersAlgorithm ==> maxD <= CostLimit(maxD)
  {
    hide PowerFrom;
  }

  // What a mode promises of its script.
  ghost predicate MyersScript<T(!new)>(a: seq<T>, b: seq<T>, algorithm: DiffAlgorithm, ops: seq<EditOp>) {
    if algorithm == MyersAlgorithm then PlainScript(a, b, ops) else Shortest(a, b, ops)
  }

  lemma MyersScriptMeans<T(!new)>(a: seq<T>, b: seq<T>, algorithm: DiffAlgorithm, ops: seq<EditOp>)
    ensures MyersScript(a, b, algorithm, ops) <==> if algorithm == MyersAlgorithm then PlainScript(a, b, ops) else Shortest(a, b, ops)
  {
  }

  // A shortest script within the limit is what every mode promises.
  lemma ShortestServes<T(!new)>(a: seq<T>, b: seq<T>, algorithm: DiffAlgorithm, ops: seq<EditOp>)
    requires Shortest(a, b, ops)
    requires algorithm == MyersAlgorithm ==> a == [] || b == [] || |a| + |b| - 2 * Lcs(a, b, 0, 0) <= CostLimit(|a| + |b|)
    ensures MyersScript(a, b, algorithm, ops)
  {
    hide Shortest, Lcs, CostLimit, PlainScript;
    if algorithm == MyersAlgorithm {
      ShortestIsPlain(a, b, ops);
    }
  }

  /** Compares two files. The script is always valid. It is a shortest one, except that the plain mode
      goes only as far as its limit at a time. */
  method MyersDiff<T(==,!new)>(a: seq<T>, b: seq<T>, algorithm: DiffAlgorithm) returns (ops: seq<EditOp>)
    ensures ValidScript(a, b, ops) && FreeIfEqual(a, b, ops)
    ensures MyersScript(a, b, algorithm, ops)
    decreases |a| + |b|
  {
    hide *;
    var n, m := |a|, |b|;
    if n == 0 {
      ops := AllInserts(m);
      OneSided(a, b, ops);
      ShortestServes(a, b, algorithm, ops);
      return;
    }
    if m == 0 {
      ops := AllDeletes(n);
      OneSided(a, b, ops);
      ShortestServes(a, b, algorithm, ops);
      return;
    }
    var maxD := n + m;
    var offset := maxD;
    var mxcost := maxD;
    if algorithm == MyersAlgorithm {
      mxcost := Bogosqrt(n + m);
      if mxcost < FREE_COST {
        mxcost := FREE_COST;
      }
      if mxcost > maxD {
        mxcost := maxD;
      }
    }
    assert mxcost == LimitFor(algorithm, maxD) by {
      LimitForIs(algorithm, maxD);
    }
    LimitForBounds(algorithm, maxD);
    var trace: seq<seq<int>> := [];
    var v := new int[2 * maxD + 1](_ => -1);
    v[offset + 1] := 0;
    BeforeFirstRound(a, b, v[..], offset);
    var d := 0;
    while d <= maxD
      invariant d <= maxD + 1 && |trace| == d && (mxcost < maxD ==> d <= mxcost)
      invariant d <= maxD ==> HalfRound(a, b, v[..], offset, d, 0)
      invariant d > 0 ==> HoldsTrace(a, b, trace, offset, d - 1)
      invariant NoneFinished(a, b, d, 0)
    {
      SaveRound(a, b, trace, v[..], offset, d);
      trace := trace + [v[..]];
      var done, last := RunRound(a, b, v, n, m, offset, d);
      if done {
        assert Far(a, b, d, last) == n && 2 * last - d == n - m && d == n + m - 2 * Lcs(a, b, 0, 0) by {
          FirstFinishIsCorner(a, b, d, last);
        }
        ops := BacktrackTrace(a, b, trace, d, n, m, offset, last);
        assert Shortest(a, b, ops) && ValidScript(a, b, ops) && FreeIfEqual(a, b, ops) by {
          CornerIsShortest(a, b, ops, d);
        }
        ShortestServes(a, b, algorithm, ops);
        return;
      }
      assert NoneFinished(a, b, d + 1, 0)
             && (d < offset ==> HoldsRound(a, b, v[..], offset, d) && HalfRound(a, b, v[..], offset, d + 1, 0)) by {
        NextRound(a, b, v[..], offset, d);
      }
      if d >= mxcost && d < maxD {
        var bestX, bestY, best := BestEndpoint(a, b, v, n, m, offset, d);
        if bestX >= 0 {
          ops := BacktrackTrace(a, b, trace, d, bestX, bestY, offset, best);
          assert bestX + bestY > 0 by {
            PathBounds(a, b, ops, 0, 0, bestX, bestY);
          }
          assert |a[bestX..]| + |b[bestY..]| < |a| + |b|;
          var tailOps := MyersDiff(a[bestX..], b[bestY..], algorithm);
          ghost var head := ops;
          JoinTail(a, b, ops, tailOps, bestX, bestY);
          ops := AppendShifted(ops, tailOps, bestX, bestY);
          assert FreeIfEqual(a, b, ops) && MyersScript(a, b, algorithm, ops) by {
            DifferentIfUnfinished(a, b, d, ops);
            GivenUp(a, b, algorithm, d, best, head, tailOps, bestX, bestY);
          }
          return;
        }
        SomeInBox(a, b, d);
        assert false;
      }
      d := d + 1;
    }
    SomeRoundFinishes(a, b, d);
    assert false;
  }

  /** One round: every diagonal of round d, up to the first finished point if there is one. */
  method RunRound<T(==)>(a: seq<T>, b: seq<T>, v: array<int>, n: nat, m: nat, offset: nat, d: nat)
    returns (done: bool, ghost last: nat)
    requires n == |a| && m == |b| && HalfRound(a, b, v[..], offset, d, 0) && NoneFinished(a, b, d, 0)
    modifies v
    ensures done ==> last <= d && Finished(a, b, d, last)
    ensures !done ==> HalfRound(a, b, v[..], offset, d, d + 1) && NoneFinished(a, b, d, d + 1)
  {
    hide Far, HoldsRound;
    var k: int := 0 - d;
    last := 0;
    while k <= d
      invariant k == 2 * last - d && last <= d + 1
      invariant HalfRound(a, b, v[..], offset, d, last)
      invariant NoneFinished(a, b, d, last)
    {
      var x := Advance(a, b, v, offset, d, k, last);
      var y := x - k;
      SetEntry(a, b, v[..], offset, d, last);
      ghost var vs := v[..];
      v[offset + k] := x;
      assert v[..] == vs[offset + (2 * last - d) := x];
      if x >= n && y >= m {
        return true, last;
      }
      k := k + 2;
      last := last + 1;
    }
    done := false;
  }

  lemma CornerIsShortest<T>(a: seq<T>, b: seq<T>, ops: seq<EditOp>, d: nat)
    requires Path(a, b, ops, 0, 0, |a|, |b|) && Cost(ops) == d
    requires d == |a| + |b| - 2 * Lcs(a, b, 0, 0)
    ensures ValidScript(a, b, ops) && Shortest(a, b, ops) && FreeIfEqual(a, b, ops)
  {
    ShortestIffLcsCost(a, b, ops);
    FreeScript(a, b, ops);
  }

  lemma OneSided<T>(a: seq<T>, b: seq<T>, ops: seq<EditOp>)
    requires a == [] || b == []
    requires |ops| == |a| + |b|
    requires forall i :: 0 <= i < |ops| ==> ops[i] == if a == [] then Insert(i) else Delete(i)
    ensures ValidScript(a, b, ops) && Shortest(a, b, ops) && FreeIfEqual(a, b, ops)
  {
    if a == [] {
      InsertsPath(a, b, ops, 0, 0);
    } else {
      DeletesPath(a, b, ops, 0, 0);
    }
    ShortestIffLcsCost(a, b, ops);
  }

  // A shortest script of equal files keeps every line.
  lemma FreeScript<T>(a: seq<T>, b: seq<T>, ops: seq<EditOp>)
    requires Shortest(a, b, ops)
    ensures FreeIfEqual(a, b, ops)
  {
    hide Path, Cost, Lcs;
    if a == b {
      WholeIsFree(a, b);
    }
  }

  lemma WholeIsFree<T>(a: seq<T>, b: seq<T>)
    requires a == b
    ensures ValidScript(a, b, Diagonal(0, 0, |a|)) && Cost(Diagonal(0, 0, |a|)) == 0
  {
    hide Path, Cost;
    assert a[0..|a|] == b[0..|a|];
    DiagonalPath(a, b, 0, 0, |a|);
    DiagonalIsFree(0, 0, |a|);
  }

  // If round 0 does not finish, the files differ.
  lemma DifferentIfUnfinished<T>(a: seq<T>, b: seq<T>, d: nat, ops: seq<EditOp>)
    requires NoneFinished(a, b, d + 1, 0)
    ensures FreeIfEqual(a, b, ops)
  {
    hide Path, Cost, Finished;
    if a == b {
      WholeIsFree(a, b);
      ScriptFinishes(a, b, Diagonal(0, 0, |a|));
    }
  }

  // If no round up to d finishes, every script costs more.
  lemma CostlyIfUnfinished<T>(a: seq<T>, b: seq<T>, d: nat)
    requires NoneFinished(a, b, d + 1, 0)
    ensures |a| + |b| - 2 * Lcs(a, b, 0, 0) > d
  {
    var s := LcsAttained(a, b, 0, 0);
    hide Far, Path, Cost, Lcs;
    PathBounds(a, b, s, 0, 0, |a|, |b|);
    ScriptFinishes(a, b, s);
  }

  // What the plain mode has when it gives up at the limit.
  lemma GivenUp<T(!new)>(a: seq<T>, b: seq<T>, algorithm: DiffAlgorithm, d: nat, best: nat, head: seq<EditOp>, tail: seq<EditOp>,
                         x: nat, y: nat)
    requires NoneFinished(a, b, d + 1, 0) && MostProgress(a, b, d, best) && best <= d && a != [] && b != []
    requires x == Far(a, b, d, best) && x - y == 2 * best - d && x <= |a| && y <= |b| && x + y > 0
    requires Path(a, b, head, 0, 0, x, y) && Cost(head) == d
    requires algorithm == MyersAlgorithm && d == CostLimit(|a| + |b|) && MyersScript(a[x..], b[y..], algorithm, tail)
    ensures MyersScript(a, b, algorithm, head + ShiftAll(tail, x, y))
  {
    hide *;
    CostlyIfUnfinished(a, b, d);
    BestIsCut(a, b, d, best, head, tail, x, y);
    MyersScriptMeans(a[x..], b[y..], algorithm, tail);
    CutIsPlain(a, b, head + ShiftAll(tail, x, y), head, tail, x, y);
    MyersScriptMeans(a, b, algorithm, head + ShiftAll(tail, x, y));
  }

  // A script for the head of the files and one for the rest make one for the files.
  lemma JoinTail<T>(a: seq<T>, b: seq<T>, ops: seq<EditOp>, tail: seq<EditOp>, x: nat, y: nat)
    requires x <= |a| && y <= |b|
    requires Path(a, b, ops, 0, 0, x, y) && ValidScript(a[x..], b[y..], tail)
    ensures ValidScript(a, b, ops + ShiftAll(tail, x, y))
  {
    PathShift(a, b, a[x..], b[y..], tail, x, y, 0, 0, |a| - x, |b| - y);
    PathConcat(a, b, ops, ShiftAll(tail, x, y), 0, 0, x, y, |a|, |b|);
  }
}
