/** Carrying line annotations over to a new version of a file along a longest common subsequence. */
module Annotate {
  import opened Common
  import opened EditScript

  // The annotation of an old line; lines past the annotations have an empty one.
  function OldAnnotation(annotations: seq<string>, i: nat): string {
    if i < |annotations| then annotations[i] else ""
  }

  // dp holds the length of the longest common subsequence of every pair of tails from i on.
  ghost predicate Filled<T>(a: seq<T>, b: seq<T>, dp: array2<nat>, i: nat)
    reads dp
  {
    dp.Length0 == |a| + 1 && dp.Length1 == |b| + 1 &&
    forall x, y :: i <= x <= |a| && 0 <= y <= |b| ==> dp[x, y] == Lcs(a, b, x, y)
  }

  ghost predicate RowFilled<T>(a: seq<T>, b: seq<T>, dp: array2<nat>, i: nat, j: nat)
    requires i < |a| && j <= |b|
    reads dp
  {
    dp.Length0 == |a| + 1 && dp.Length1 == |b| + 1 &&
    forall y :: j <= y <= |b| ==> dp[i, y] == Lcs(a, b, i, y)
  }

  method FillTable<T(==)>(a: seq<T>, b: seq<T>) returns (dp: array2<nat>)
    ensures fresh(dp) && Filled(a, b, dp, 0)
  {
    dp := new nat[|a| + 1, |b| + 1]((_, _) => 0);
    var i := |a|;
    while i > 0
      invariant 0 <= i <= |a| && Filled(a, b, dp, i)
      invariant forall x, y :: 0 <= x < i && 0 <= y <= |b| ==> dp[x, y] == 0
    {
      i := i - 1;
      var j := |b|;
      while j > 0
        invariant 0 <= j <= |b| && Filled(a, b, dp, i + 1) && RowFilled(a, b, dp, i, j)
        invariant forall x, y :: 0 <= x < i && 0 <= y <= |b| ==> dp[x, y] == 0
      {
        j := j - 1;
        if a[i] == b[j] {
          dp[i, j] := dp[i + 1, j + 1] + 1;
        } else {
          dp[i, j] := Max(dp[i + 1, j], dp[i, j + 1]);
        }
      }
    }
  }

  // The annotations a script gives the new lines it passes.
  ghost function Annotated(ops: seq<EditOp>, annotations: seq<string>, annotation: string): seq<string> {
    if ops == [] then []
    else
      Annotated(ops[..|ops| - 1], annotations, annotation)
      + match ops[|ops| - 1]
        case Equal(i, _) => [OldAnnotation(annotations, i)]
        case Insert(_) => [annotation]
        case Delete(_) => []
  }

  // A kept line keeps its annotation, an inserted one gets the new one.
  lemma {:induction false} AnnotationAt<T>(a: seq<T>, b: seq<T>, ops: seq<EditOp>, u: nat, v: nat,
                                           annotations: seq<string>, annotation: string)
    requires Path(a, b, ops, 0, 0, u, v)
    ensures |Annotated(ops, annotations, annotation)| == v
    ensures forall k :: 0 <= k < |ops| && ops[k].Equal? ==>
                          ops[k].newIdx < v && Annotated(ops, annotations, annotation)[ops[k].newIdx] == OldAnnotation(annotations, ops[k].oldIdx)
    ensures forall k :: 0 <= k < |ops| && ops[k].Insert? ==>
                          ops[k].newIdx < v && Annotated(ops, annotations, annotation)[ops[k].newIdx] == annotation
    decreases |ops|
  {
    hide Path;
    if ops == [] {
      EmptyPathEnds(a, b, u, v);
    } else {
      var init, o := ops[..|ops| - 1], ops[|ops| - 1];
      assert ops == init + [o];
      var p, q := PathSplit(a, b, init, [o], 0, 0, u, v);
      LastStep(a, b, o, p, q, u, v);
      AnnotationAt(a, b, init, p, q, annotations, annotation);
      assert forall k :: 0 <= k < |init| ==> ops[k] == init[k];
    }
  }

  lemma EmptyPathEnds<T>(a: seq<T>, b: seq<T>, u: nat, v: nat)
    requires Path(a, b, [], 0, 0, u, v)
    ensures u == 0 && v == 0
  {
  }

  lemma LastStep<T>(a: seq<T>, b: seq<T>, o: EditOp, p: nat, q: nat, u: nat, v: nat)
    requires Path(a, b, [o], p, q, u, v)
    ensures u == (if o.Insert? then p else p + 1) && v == (if o.Delete? then q else q + 1)
    ensures (!o.Insert? ==> o.oldIdx == p) && (!o.Delete? ==> o.newIdx == q)
  {
    assert [o][1..] == [];
  }

  ghost predicate WalkedTo<T>(a: seq<T>, b: seq<T>, ops: seq<EditOp>, i: nat, j: nat) {
    && i <= |a| && j <= |b| && Path(a, b, ops, 0, 0, i, j)
    && Kept(ops) + Lcs(a, b, i, j) == Lcs(a, b, 0, 0)
  }

  lemma WalkOn<T>(a: seq<T>, b: seq<T>, ops: seq<EditOp>, i: nat, j: nat, o: EditOp)
    requires WalkedTo(a, b, ops, i, j)
    requires match o
             case Equal(x, y) => x == i < |a| && y == j < |b| && a[i] == b[j]
             case Insert(y) => y == j < |b| && Lcs(a, b, i, j) == Lcs(a, b, i, j + 1)
             case Delete(x) => x == i < |a| && Lcs(a, b, i, j) == Lcs(a, b, i + 1, j)
    ensures WalkedTo(a, b, ops + [o], if o.Insert? then i else i + 1, if o.Delete? then j else j + 1)
  {
    var i' := if o.Insert? then i else i + 1;
    var j' := if o.Delete? then j else j + 1;
    assert [o][1..] == [];
    assert Path(a, b, [o], i, j, i', j');
    PathConcat(a, b, ops, [o], 0, 0, i, j, i', j');
    PathBounds(a, b, ops, 0, 0, i, j);
    PathBounds(a, b, ops + [o], 0, 0, i', j');
    assert Cost([o]) == if o.Equal? then 0 else 1;
  }

  /** One annotation for every new line. The lines that keep their old annotation are those that a
      script keeps which keeps as many lines as the longest common subsequence has. */
  method ReannotateLines<T(==)>(a: seq<T>, annotations: seq<string>, b: seq<T>, annotation: string)
    returns (result: seq<string>, ghost ops: seq<EditOp>)
    ensures ValidScript(a, b, ops) && Kept(ops) == Lcs(a, b, 0, 0)
    ensures result == Annotated(ops, annotations, annotation) && |result| == |b|
  {
    var dp := FillTable(a, b);
    hide Path, Lcs, Kept;
    result, ops := [], [];
    NothingWalked(a, b);
    var i, j := 0, 0;
    while i < |a| || j < |b|
      invariant 0 <= i <= |a| && 0 <= j <= |b| && Filled(a, b, dp, 0)
      invariant WalkedTo(a, b, ops, i, j) && result == Annotated(ops, annotations, annotation)
      decreases |a| - i + |b| - j
    {
      LcsUnfold(a, b, i, j);
      ghost var o;
      if i < |a| && j < |b| && a[i] == b[j] {
        result := result + [if i < |annotations| then annotations[i] else ""];
        o := Equal(i, j);
        WalkOn(a, b, ops, i, j, o);
        i, j := i + 1, j + 1;
      } else if j < |b| && (i == |a| || dp[i, j + 1] >= dp[i + 1, j]) {
        result := result + [annotation];
        o := Insert(j);
        WalkOn(a, b, ops, i, j, o);
        j := j + 1;
      } else {
        o := Delete(i);
        WalkOn(a, b, ops, i, j, o);
        i := i + 1;
      }
      assert (ops + [o])[..|ops|] == ops;
      ops := ops + [o];
    }
    AnnotationAt(a, b, ops, |a|, |b|, annotations, annotation);
    LcsUnfold(a, b, |a|, |b|);
  }

  lemma NothingWalked<T>(a: seq<T>, b: seq<T>)
    ensures WalkedTo(a, b, [], 0, 0)
  {
  }

  lemma LcsUnfold<T>(a: seq<T>, b: seq<T>, i: nat, j: nat)
    requires i <= |a| && j <= |b|
    ensures Lcs(a, b, i, j) == if i == |a| || j == |b| then 0
                               else if a[i] == b[j] then 1 + Lcs(a, b, i + 1, j + 1)
                               else Max(Lcs(a, b, i + 1, j), Lcs(a, b, i, j + 1))
    ensures j < |b| && i == |a| ==> Lcs(a, b, i, j + 1) == 0
    ensures i < |a| && j == |b| ==> Lcs(a, b, i + 1, j) == 0
  {
  }
}
