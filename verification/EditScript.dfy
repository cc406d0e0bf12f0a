/** Edit scripts between two line sequences, their cost, and longest common subsequences.
    Lines are values of any type with equality: the diff algorithms only compare them. */
module EditScript {
  import opened Common

  // One edit operation: keep a line of both files, delete an old line, insert a new line.
  datatype EditOp = Equal(oldIdx: nat, newIdx: nat) | Delete(oldIdx: nat) | Insert(newIdx: nat) {
    // The same operation with its indices moved to another origin.
    function Shift(dx: nat, dy: nat): EditOp {
      match this
      case Equal(i, j) => Equal(i + dx, j + dy)
      case Delete(i) => Delete(i + dx)
      case Insert(j) => Insert(j + dy)
    }
  }

  /** ops is a path in the edit graph of a and b from (x, y) to (u, v): it names the next old
      line, the next new line or both, in order, and keeps a line only when both sides agree. */
  ghost predicate Path<T>(a: seq<T>, b: seq<T>, ops: seq<EditOp>, x: nat, y: nat, u: nat, v: nat)
  {
    if ops == [] then x == u && y == v
    else
      match ops[0]
      case Equal(i, j) =>
        i == x && j == y && x < |a| && y < |b| && a[x] == b[y] && Path(a, b, ops[1..], x + 1, y + 1, u, v)
      case Delete(i) => i == x && x < |a| && Path(a, b, ops[1..], x + 1, y, u, v)
      case Insert(j) => j == y && y < |b| && Path(a, b, ops[1..], x, y + 1, u, v)
  }

  ghost predicate ValidScript<T>(a: seq<T>, b: seq<T>, ops: seq<EditOp>) {
    Path(a, b, ops, 0, 0, |a|, |b|)
  }

  // The number of deletions and insertions.
  ghost function Cost(ops: seq<EditOp>): nat {
    if ops == [] then 0 else (if ops[0].Equal? then 0 else 1) + Cost(ops[1..])
  }

  ghost function Kept(ops: seq<EditOp>): nat {
    if ops == [] then 0 else (if ops[0].Equal? then 1 else 0) + Kept(ops[1..])
  }

  function ShiftAll(ops: seq<EditOp>, dx: nat, dy: nat): (r: seq<EditOp>)
    ensures |r| == |ops|
    ensures forall i :: 0 <= i < |ops| ==> r[i] == ops[i].Shift(dx, dy)
  {
    seq(|ops|, i requires 0 <= i < |ops| => ops[i].Shift(dx, dy))
  }

  // The path that keeps len lines in a row.
  function Diagonal(x: nat, y: nat, len: nat): (r: seq<EditOp>)
    ensures |r| == len
    ensures forall i :: 0 <= i < len ==> r[i] == Equal(x + i, y + i)
  {
    seq(len, i requires 0 <= i < len => Equal(x + i, y + i))
  }

  function Reversed<T>(s: seq<T>): (r: seq<T>)
    ensures |r| == |s|
    ensures forall i :: 0 <= i < |s| ==> r[i] == s[|s| - 1 - i]
  {
    seq(|s|, i requires 0 <= i < |s| => s[|s| - 1 - i])
  }

  // ----- What a valid script says, without walking it -----

  function OldIndices(ops: seq<EditOp>): seq<nat> {
    if ops == [] then []
    else (if ops[0].Insert? then [] else [ops[0].oldIdx]) + OldIndices(ops[1..])
  }

  function NewIndices(ops: seq<EditOp>): seq<nat> {
    if ops == [] then []
    else (if ops[0].Delete? then [] else [ops[0].newIdx]) + NewIndices(ops[1..])
  }

  function Iota(from: nat, to: nat): (r: seq<nat>)
    requires from <= to
    ensures |r| == to - from
    ensures forall i :: 0 <= i < |r| ==> r[i] == from + i
  {
    seq(to - from, i requires 0 <= i < to - from => from + i)
  }

  ghost predicate KeepsEqualLines<T>(a: seq<T>, b: seq<T>, ops: seq<EditOp>) {
    forall i :: 0 <= i < |ops| && ops[i].Equal? ==>
                  ops[i].oldIdx < |a| && ops[i].newIdx < |b| && a[ops[i].oldIdx] == b[ops[i].newIdx]
  }

  /** A path is exactly a list of operations whose old indices count up the old lines, whose new
      indices count up the new lines, and whose kept pairs are equal. */
  lemma {:induction false} PathIffInOrder<T>(a: seq<T>, b: seq<T>, ops: seq<EditOp>, x: nat, y: nat)
    requires x <= |a| && y <= |b|
    ensures Path(a, b, ops, x, y, |a|, |b|) <==>
            && OldIndices(ops) == Iota(x, |a|)
            && NewIndices(ops) == Iota(y, |b|)
            && KeepsEqualLines(a, b, ops)
  {
    if ops == [] {
    } else {
      var o, rest := ops[0], ops[1..];
      var x' := if o.Insert? then x else x + 1;
      var y' := if o.Delete? then y else y + 1;
      assert KeepsEqualLines(a, b, ops) <==>
             (o.Equal? ==> o.oldIdx < |a| && o.newIdx < |b| && a[o.oldIdx] == b[o.newIdx]) && KeepsEqualLines(a, b, rest) by {
        assert forall i :: 0 <= i < |rest| ==> rest[i] == ops[i + 1];
        assert ops == [o] + rest;
      }
      if x' <= |a| && y' <= |b| {
        PathIffInOrder(a, b, rest, x', y');
        HeadOfIota(o.Insert?, if o.Insert? then 0 else o.oldIdx, OldIndices(rest), x, |a|);
        HeadOfIota(o.Delete?, if o.Delete? then 0 else o.newIdx, NewIndices(rest), y, |b|);
      }
    }
  }

  lemma HeadOfIota(skip: bool, head: nat, rest: seq<nat>, x: nat, n: nat)
    requires (if skip then x else x + 1) <= n
    ensures (if skip then [] else [head]) + rest == Iota(x, n) <==>
            (skip || head == x) && rest == Iota(if skip then x else x + 1, n)
  {
    if skip {
      assert [] + rest == rest;
    } else {
      assert Iota(x, n) == [x] + Iota(x + 1, n);
      if [head] + rest == Iota(x, n) {
        assert rest == ([head] + rest)[1..] == Iota(x + 1, n);
        assert head == ([head] + rest)[0];
      }
    }
  }

  // ----- Composing paths -----

  lemma {:induction false} PathBounds<T>(a: seq<T>, b: seq<T>, ops: seq<EditOp>, x: nat, y: nat, u: nat, v: nat)
    requires Path(a, b, ops, x, y, u, v)
    ensures x <= u && y <= v
    ensures x <= |a| && y <= |b| ==> u <= |a| && v <= |b|
    ensures Cost(ops) + 2 * Kept(ops) == (u - x) + (v - y)
    ensures |ops| == Cost(ops) + Kept(ops)
  {
    if ops != [] {
      var x' := if ops[0].Insert? then x else x + 1;
      var y' := if ops[0].Delete? then y else y + 1;
      PathBounds(a, b, ops[1..], x', y', u, v);
    }
  }

  lemma {:induction false} PathConcat<T>(a: seq<T>, b: seq<T>, s: seq<EditOp>, t: seq<EditOp>,
                                         x: nat, y: nat, p: nat, q: nat, u: nat, v: nat)
    requires Path(a, b, s, x, y, p, q) && Path(a, b, t, p, q, u, v)
    ensures Path(a, b, s + t, x, y, u, v)
    ensures Cost(s + t) == Cost(s) + Cost(t)
  {
    if s == [] {
      assert s + t == t;
    } else {
      var x' := if s[0].Insert? then x else x + 1;
      var y' := if s[0].Delete? then y else y + 1;
      PathConcat(a, b, s[1..], t, x', y', p, q, u, v);
      assert (s + t)[0] == s[0] && (s + t)[1..] == s[1..] + t;
    }
  }

  lemma {:induction false} CostConcat(s: seq<EditOp>, t: seq<EditOp>)
    ensures Cost(s + t) == Cost(s) + Cost(t)
  {
    if s == [] {
      assert s + t == t;
    } else {
      CostConcat(s[1..], t);
      assert (s + t)[0] == s[0] && (s + t)[1..] == s[1..] + t;
    }
  }

  // A path can be cut anywhere.
  lemma {:induction false} PathSplit<T>(a: seq<T>, b: seq<T>, s: seq<EditOp>, t: seq<EditOp>,
                                        x: nat, y: nat, u: nat, v: nat)
    returns (p: nat, q: nat)
    requires Path(a, b, s + t, x, y, u, v)
    ensures Path(a, b, s, x, y, p, q) && Path(a, b, t, p, q, u, v)
  {
    if s == [] {
      assert s + t == t;
      p, q := x, y;
    } else {
      assert (s + t)[0] == s[0] && (s + t)[1..] == s[1..] + t;
      var x' := if s[0].Insert? then x else x + 1;
      var y' := if s[0].Delete? then y else y + 1;
      p, q := PathSplit(a, b, s[1..], t, x', y', u, v);
    }
  }

  // A path in a window of the two files is, shifted, a path in the files.
  lemma {:induction false} PathShift<T>(a: seq<T>, b: seq<T>, a': seq<T>, b': seq<T>, ops: seq<EditOp>,
                                        dx: nat, dy: nat, x: nat, y: nat, u: nat, v: nat)
    requires dx + |a'| <= |a| && dy + |b'| <= |b|
    requires a' == a[dx..dx + |a'|] && b' == b[dy..dy + |b'|]
    requires Path(a', b', ops, x, y, u, v)
    ensures Path(a, b, ShiftAll(ops, dx, dy), x + dx, y + dy, u + dx, v + dy)
  {
    var r := ShiftAll(ops, dx, dy);
    if ops != [] {
      var x' := if ops[0].Insert? then x else x + 1;
      var y' := if ops[0].Delete? then y else y + 1;
      PathShift(a, b, a', b', ops[1..], dx, dy, x', y', u, v);
      assert r[1..] == ShiftAll(ops[1..], dx, dy);
      assert r[0] == ops[0].Shift(dx, dy);
      if ops[0].Equal? {
        assert a[x + dx] == a'[x] && b[y + dy] == b'[y];
      }
    }
  }

  lemma {:induction false} DiagonalPath<T>(a: seq<T>, b: seq<T>, x: nat, y: nat, len: nat)
    requires x + len <= |a| && y + len <= |b|
    requires a[x..x + len] == b[y..y + len]
    ensures Path(a, b, Diagonal(x, y, len), x, y, x + len, y + len)
    decreases len
  {
    var r := Diagonal(x, y, len);
    if len > 0 {
      var s, t := a[x..x + len], b[y..y + len];
      assert a[x] == s[0] && b[y] == t[0];
      assert a[x + 1..x + len] == s[1..] && b[y + 1..y + len] == t[1..];
      DiagonalPath(a, b, x + 1, y + 1, len - 1);
      assert r[1..] == Diagonal(x + 1, y + 1, len - 1);
    }
  }

  lemma {:induction false} DeletesPath<T>(a: seq<T>, b: seq<T>, ops: seq<EditOp>, x: nat, y: nat)
    requires x + |ops| <= |a|
    requires forall i :: 0 <= i < |ops| ==> ops[i] == Delete(x + i)
    ensures Path(a, b, ops, x, y, x + |ops|, y)
    ensures Cost(ops) == |ops|
  {
    if ops != [] {
      DeletesPath(a, b, ops[1..], x + 1, y);
    }
  }

  lemma {:induction false} InsertsPath<T>(a: seq<T>, b: seq<T>, ops: seq<EditOp>, x: nat, y: nat)
    requires y + |ops| <= |b|
    requires forall i :: 0 <= i < |ops| ==> ops[i] == Insert(y + i)
    ensures Path(a, b, ops, x, y, x, y + |ops|)
    ensures Cost(ops) == |ops|
  {
    if ops != [] {
      InsertsPath(a, b, ops[1..], x, y + 1);
    }
  }

  // ----- Longest common subsequence -----

  // The length of a longest common subsequence of a[i..] and b[j..].
  ghost function Lcs<T>(a: seq<T>, b: seq<T>, i: nat, j: nat): nat
    requires i <= |a| && j <= |b|
    decreases |a| - i + |b| - j
  {
    if i == |a| || j == |b| then 0
    else if a[i] == b[j] then 1 + Lcs(a, b, i + 1, j + 1)
    else Max(Lcs(a, b, i + 1, j), Lcs(a, b, i, j + 1))
  }

  // Dropping one line from one side loses at most one common line.
  lemma {:induction false} LcsStep<T>(a: seq<T>, b: seq<T>, i: nat, j: nat)
    requires i <= |a| && j <= |b|
    ensures i < |a| ==> Lcs(a, b, i + 1, j) <= Lcs(a, b, i, j) <= Lcs(a, b, i + 1, j) + 1
    ensures j < |b| ==> Lcs(a, b, i, j + 1) <= Lcs(a, b, i, j) <= Lcs(a, b, i, j + 1) + 1
    decreases |a| - i + |b| - j
  {
    if i < |a| && j < |b| {
      LcsStep(a, b, i + 1, j);
      LcsStep(a, b, i, j + 1);
    }
  }

  // No path keeps more lines than the longest common subsequence.
  lemma {:induction false} KeptAtMostLcs<T>(a: seq<T>, b: seq<T>, ops: seq<EditOp>, x: nat, y: nat)
    requires x <= |a| && y <= |b| && Path(a, b, ops, x, y, |a|, |b|)
    ensures Kept(ops) <= Lcs(a, b, x, y)
  {
    if ops != [] {
      var x' := if ops[0].Insert? then x else x + 1;
      var y' := if ops[0].Delete? then y else y + 1;
      KeptAtMostLcs(a, b, ops[1..], x', y');
      LcsStep(a, b, x, y);
    }
  }

  // Some path keeps that many.
  lemma {:induction false} LcsAttained<T>(a: seq<T>, b: seq<T>, x: nat, y: nat) returns (ops: seq<EditOp>)
    requires x <= |a| && y <= |b|
    ensures Path(a, b, ops, x, y, |a|, |b|)
    ensures Kept(ops) == Lcs(a, b, x, y)
    decreases |a| - x + |b| - y
  {
    if x == |a| && y == |b| {
      ops := [];
    } else {
      var o: EditOp;
      var rest: seq<EditOp>;
      if x < |a| && y < |b| && a[x] == b[y] {
        rest := LcsAttained(a, b, x + 1, y + 1);
        o := Equal(x, y);
      } else if y == |b| || (x < |a| && Lcs(a, b, x + 1, y) >= Lcs(a, b, x, y + 1)) {
        rest := LcsAttained(a, b, x + 1, y);
        o := Delete(x);
      } else {
        rest := LcsAttained(a, b, x, y + 1);
        o := Insert(y);
      }
      ops := [o] + rest;
      assert ops[0] == o && ops[1..] == rest;
    }
  }

  /** A script of the cost that the longest common subsequence allows is a shortest one, and a
      shortest one has that cost. */
  lemma ShortestIffLcsCost<T>(a: seq<T>, b: seq<T>, ops: seq<EditOp>)
    requires ValidScript(a, b, ops)
    ensures (forall s :: ValidScript(a, b, s) ==> Cost(ops) <= Cost(s)) <==>
            Cost(ops) == |a| + |b| - 2 * Lcs(a, b, 0, 0)
  {
    PathBounds(a, b, ops, 0, 0, |a|, |b|);
    forall s | ValidScript(a, b, s)
      ensures Cost(s) >= |a| + |b| - 2 * Lcs(a, b, 0, 0)
    {
      PathBounds(a, b, s, 0, 0, |a|, |b|);
      KeptAtMostLcs(a, b, s, 0, 0);
    }
    var best := LcsAttained(a, b, 0, 0);
    PathBounds(a, b, best, 0, 0, |a|, |b|);
  }
}
