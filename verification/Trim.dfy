/** What the patience and histogram diffs share: trimming the common head and tail of two files,
    and putting a script for the middle back between them. */
module Trim {
  import opened EditScript
  import opened Myers

  // a and b share a head of prefix lines, a tail of suffix lines, and nothing next to these.
  ghost predicate Trimmed<T>(a: seq<T>, b: seq<T>, prefix: nat, suffix: nat) {
    && prefix + suffix <= |a| && prefix + suffix <= |b|
    && a[..prefix] == b[..prefix]
    && a[|a| - suffix..] == b[|b| - suffix..]
    && (prefix + suffix < |a| && prefix + suffix < |b| ==>
          a[prefix] != b[prefix] && a[|a| - suffix - 1] != b[|b| - suffix - 1])
  }

  method TrimCommon<T(==)>(a: seq<T>, b: seq<T>) returns (prefix: nat, suffix: nat)
    ensures prefix + suffix <= |a| && prefix + suffix <= |b|
    ensures Trimmed(a, b, prefix, suffix)
  {
    var n, m := |a|, |b|;
    prefix := 0;
    while prefix < n && prefix < m && a[prefix] == b[prefix]
      invariant prefix <= n && prefix <= m && a[..prefix] == b[..prefix]
    {
      prefix := prefix + 1;
    }
    suffix := 0;
    while suffix < n - prefix && suffix < m - prefix && a[n - 1 - suffix] == b[m - 1 - suffix]
      invariant prefix + suffix <= n && prefix + suffix <= m && a[n - suffix..] == b[m - suffix..]
    {
      suffix := suffix + 1;
      assert a[n - suffix..] == [a[n - suffix]] + a[n - suffix + 1..];
      assert b[m - suffix..] == [b[m - suffix]] + b[m - suffix + 1..];
    }
  }

  method EmitEqual(ops: seq<EditOp>, x: nat, y: nat, len: nat) returns (r: seq<EditOp>)
    ensures r == ops + Diagonal(x, y, len)
  {
    r := ops;
    for i := 0 to len
      invariant r == ops + Diagonal(x, y, len)[..i]
    {
      r := r + [Equal(x + i, y + i)];
    }
  }

  // ops is a script for the first x old and y new lines.
  ghost predicate ScriptTo<T>(a: seq<T>, b: seq<T>, ops: seq<EditOp>, x: nat, y: nat) {
    x <= |a| && y <= |b| && Path(a, b, ops, 0, 0, x, y)
  }

  lemma ScriptToRun<T>(a: seq<T>, b: seq<T>, ops: seq<EditOp>, x: nat, y: nat, len: nat)
    requires ScriptTo(a, b, ops, x, y) && x + len <= |a| && y + len <= |b|
    requires a[x..x + len] == b[y..y + len]
    ensures ScriptTo(a, b, ops + Diagonal(x, y, len), x + len, y + len)
  {
    DiagonalPath(a, b, x, y, len);
    PathConcat(a, b, ops, Diagonal(x, y, len), 0, 0, x, y, x + len, y + len);
  }

  lemma ScriptToKeep<T>(a: seq<T>, b: seq<T>, ops: seq<EditOp>, x: nat, y: nat)
    requires ScriptTo(a, b, ops, x, y) && x < |a| && y < |b| && a[x] == b[y]
    ensures ScriptTo(a, b, ops + [Equal(x, y)], x + 1, y + 1)
  {
    assert a[x..x + 1] == [a[x]] && b[y..y + 1] == [b[y]];
    assert Diagonal(x, y, 1) == [Equal(x, y)];
    ScriptToRun(a, b, ops, x, y, 1);
  }

  lemma ScriptToPart<T>(a: seq<T>, b: seq<T>, ops: seq<EditOp>, x: nat, y: nat, part: seq<EditOp>, u: nat, v: nat)
    requires ScriptTo(a, b, ops, x, y) && x <= u <= |a| && y <= v <= |b|
    requires ValidScript(a[x..u], b[y..v], part)
    ensures ScriptTo(a, b, ops + ShiftAll(part, x, y), u, v)
  {
    PathShift(a, b, a[x..u], b[y..v], part, x, y, 0, 0, u - x, v - y);
    PathConcat(a, b, ops, ShiftAll(part, x, y), 0, 0, x, y, u, v);
  }

  lemma NothingShifted(x: nat, y: nat)
    ensures ShiftAll([], x, y) == []
  {
  }

  // Equal files have no interior.
  lemma TrimmedDiffer<T>(a: seq<T>, b: seq<T>, prefix: nat, suffix: nat, ops: seq<EditOp>)
    requires Trimmed(a, b, prefix, suffix) && !(|a| <= prefix + suffix && |b| <= prefix + suffix)
    ensures FreeIfEqual(a, b, ops)
  {
  }

  lemma TrimmedUnequal<T>(a: seq<T>, b: seq<T>, prefix: nat, suffix: nat)
    requires Trimmed(a, b, prefix, suffix) && !(|a| <= prefix + suffix && |b| <= prefix + suffix)
    ensures a != b
  {
  }

  // Equal files have a free script, which is a shortest one.
  lemma WholeIsShortest<T>(a: seq<T>, b: seq<T>, ops: seq<EditOp>)
    requires a == b && ValidScript(a, b, ops) && FreeIfEqual(a, b, ops)
    ensures Shortest(a, b, ops)
  {
    hide Path, Cost, Lcs;
    ShortestIffLcsCost(a, b, ops);
  }

  // If head and tail cover both files, the files are equal line by line.
  lemma NoInterior<T>(a: seq<T>, b: seq<T>, prefix: nat, suffix: nat)
    requires Trimmed(a, b, prefix, suffix) && prefix + suffix == |a| == |b|
    ensures a == b
  {
    assert a == a[..prefix] + a[|a| - suffix..];
    assert b == b[..prefix] + b[|b| - suffix..];
  }

  // The kept head of the files.
  method EmitPrefix<T>(ghost a: seq<T>, ghost b: seq<T>, prefix: nat, ghost suffix: nat) returns (ops: seq<EditOp>)
    requires Trimmed(a, b, prefix, suffix)
    ensures ScriptTo(a, b, ops, prefix, prefix) && ops == Diagonal(0, 0, prefix)
  {
    hide Path;
    NothingTo(a, b);
    ScriptToRun(a, b, [], 0, 0, prefix);
    ops := EmitEqual([], 0, 0, prefix);
    assert [] + Diagonal(0, 0, prefix) == Diagonal(0, 0, prefix);
  }

  // The kept tail of the files ends the script.
  method EmitSuffix<T>(ghost a: seq<T>, ghost b: seq<T>, before: seq<EditOp>, n: nat, m: nat, ghost prefix: nat, suffix: nat)
    returns (ops: seq<EditOp>)
    requires n == |a| && m == |b| && prefix + suffix <= n && prefix + suffix <= m && Trimmed(a, b, prefix, suffix)
    requires ScriptTo(a, b, before, n - suffix, m - suffix)
    ensures ValidScript(a, b, ops) && ops == before + Diagonal(n - suffix, m - suffix, suffix)
  {
    hide Path;
    assert a[n - suffix..n] == a[n - suffix..] && b[m - suffix..m] == b[m - suffix..];
    ScriptToRun(a, b, before, n - suffix, m - suffix, suffix);
    ops := EmitEqual(before, n - suffix, m - suffix, suffix);
  }

  // Head and tail cover both files, so every line is kept.
  method EmitWhole<T>(ghost a: seq<T>, ghost b: seq<T>, n: nat, ghost prefix: nat, ghost suffix: nat)
    returns (ops: seq<EditOp>)
    requires n == |a| && Trimmed(a, b, prefix, suffix) && prefix + suffix == n == |b|
    ensures ValidScript(a, b, ops) && FreeIfEqual(a, b, ops)
  {
    hide Path, Cost;
    NoInterior(a, b, prefix, suffix);
    WholeIsFree(a, b);
    ops := EmitEqual([], 0, 0, n);
    assert [] + Diagonal(0, 0, n) == Diagonal(0, 0, n);
  }

  // The common head and tail are kept around a script for the interior.
  ghost predicate Between<T>(a: seq<T>, b: seq<T>, ops: seq<EditOp>, prefix: nat, suffix: nat, inner: seq<EditOp>) {
    && prefix + suffix <= |a| && prefix + suffix <= |b|
    && ops == Diagonal(0, 0, prefix) + ShiftAll(inner, prefix, prefix) + Diagonal(|a| - suffix, |b| - suffix, suffix)
  }

  ghost predicate AroundShortest<T>(a: seq<T>, b: seq<T>, ops: seq<EditOp>, prefix: nat, suffix: nat)
    requires prefix + suffix <= |a| && prefix + suffix <= |b|
  {
    exists inner :: Between(a, b, ops, prefix, suffix, inner)
                    && Shortest(a[prefix..|a| - suffix], b[prefix..|b| - suffix], inner)
  }

  /** The interior goes to the minimal Myers diff, the head and tail around it are kept. */
  method MinimalInterior<T(==,!new)>(a: seq<T>, b: seq<T>, prefix: nat, suffix: nat) returns (ops: seq<EditOp>)
    requires prefix + suffix <= |a| && prefix + suffix <= |b| && Trimmed(a, b, prefix, suffix)
    ensures ValidScript(a, b, ops) && AroundShortest(a, b, ops, prefix, suffix)
  {
    hide Path, Cost, Lcs, Trimmed, Shortest, ScriptTo, Diagonal, ShiftAll;
    var u, v := |a| - suffix, |b| - suffix;
    var inner := MyersDiff(a[prefix..u], b[prefix..v], Minimal);
    ops := EmitPrefix(a, b, prefix, suffix);
    ScriptToPart(a, b, ops, prefix, prefix, inner, u, v);
    ops := AppendShifted(ops, inner, prefix, prefix);
    ops := EmitSuffix(a, b, ops, |a|, |b|, prefix, suffix);
    assert Between(a, b, ops, prefix, suffix, inner);
  }

  lemma NothingTo<T>(a: seq<T>, b: seq<T>)
    ensures ScriptTo(a, b, [], 0, 0)
  {
  }
}
