/** The dependency graph of patches: building it from the files the patches touch, searching it,
    and dropping the edges that follow from others. */
module DependencyGraph {

  datatype EdgeKey = EdgeKey(earlier: int, later: int)

  // ----- Walks -----

  // p goes along edges of e.
  ghost predicate Walk(e: set<EdgeKey>, p: seq<int>) {
    p != [] && (|p| > 1 ==> EdgeKey(p[0], p[1]) in e && Walk(e, p[1..]))
  }

  ghost predicate WalkFromTo(e: set<EdgeKey>, p: seq<int>, x: int, y: int) {
    Walk(e, p) && p[0] == x && p[|p| - 1] == y
  }

  ghost predicate Reaches(e: set<EdgeKey>, x: int, y: int) {
    exists p :: WalkFromTo(e, p, x, y)
  }

  lemma Stay(e: set<EdgeKey>, x: int)
    ensures Reaches(e, x, x)
  {
    assert WalkFromTo(e, [x], x, x);
  }

  lemma {:induction false} WalkConcat(e: set<EdgeKey>, p: seq<int>, q: seq<int>, x: int, y: int, z: int)
    requires WalkFromTo(e, p, x, y) && WalkFromTo(e, q, y, z)
    ensures WalkFromTo(e, p + q[1..], x, z)
    decreases |p|
  {
    if |p| == 1 {
      assert p + q[1..] == q;
    } else {
      WalkConcat(e, p[1..], q, p[1], y, z);
      var r := p + q[1..];
      assert r[1..] == p[1..] + q[1..];
      assert r[|r| - 1] == r[1..][|r| - 2];
    }
  }

  lemma ReachesTrans(e: set<EdgeKey>, x: int, y: int, z: int)
    requires Reaches(e, x, y) && Reaches(e, y, z)
    ensures Reaches(e, x, z)
  {
    var p :| WalkFromTo(e, p, x, y);
    var q :| WalkFromTo(e, q, y, z);
    WalkConcat(e, p, q, x, y, z);
  }

  lemma ReachesEdge(e: set<EdgeKey>, x: int, y: int)
    requires EdgeKey(x, y) in e
    ensures Reaches(e, x, y)
  {
    assert [x, y][1..] == [y];
    assert WalkFromTo(e, [x, y], x, y);
  }

  lemma {:induction false} WalkMonotone(e: set<EdgeKey>, f: set<EdgeKey>, p: seq<int>)
    requires e <= f && Walk(e, p)
    ensures Walk(f, p)
    decreases |p|
  {
    if |p| > 1 {
      WalkMonotone(e, f, p[1..]);
    }
  }

  lemma ReachesMonotone(e: set<EdgeKey>, f: set<EdgeKey>, x: int, y: int)
    requires e <= f && Reaches(e, x, y)
    ensures Reaches(f, x, y)
  {
    var p :| WalkFromTo(e, p, x, y);
    WalkMonotone(e, f, p);
    assert WalkFromTo(f, p, x, y);
  }

  // A walk that does not stay where it is begins with an edge.
  lemma FirstEdge(e: set<EdgeKey>, p: seq<int>, x: int, y: int)
    requires WalkFromTo(e, p, x, y) && |p| > 1
    ensures EdgeKey(x, p[1]) in e && WalkFromTo(e, p[1..], p[1], y)
  {
  }

  // A set of nodes that no edge leaves holds all that can be reached from it.
  lemma {:induction false} ClosedHoldsWalk(e: set<EdgeKey>, s: set<int>, p: seq<int>)
    requires forall k :: k in e && k.earlier in s ==> k.later in s
    requires Walk(e, p) && p[0] in s
    ensures p[|p| - 1] in s
    decreases |p|
  {
    if |p| > 1 {
      ClosedHoldsWalk(e, s, p[1..]);
    }
  }

  lemma ClosedHoldsReached(e: set<EdgeKey>, s: set<int>, x: int, y: int)
    requires forall k :: k in e && k.earlier in s ==> k.later in s
    requires x in s && Reaches(e, x, y)
    ensures y in s
  {
    var p :| WalkFromTo(e, p, x, y);
    ClosedHoldsWalk(e, s, p);
  }

  // ----- Adjacency lists -----

  function Reverse(k: EdgeKey): EdgeKey {
    EdgeKey(k.later, k.earlier)
  }

  ghost function Directed(e: set<EdgeKey>, forward: bool): set<EdgeKey> {
    if forward then e else set k | k in e :: Reverse(k)
  }

  // The list of a node names exactly its successors.
  ghost predicate Lists(adjacency: map<int, seq<int>>, e: set<EdgeKey>) {
    forall x, y :: EdgeKey(x, y) in e <==> x in adjacency && y in adjacency[x]
  }

  function Listed(adjacency: map<int, seq<int>>, x: int): seq<int> {
    if x in adjacency then adjacency[x] else []
  }

  method BuildAdjacency(e: set<EdgeKey>, forward: bool) returns (adjacency: map<int, seq<int>>)
    ensures Lists(adjacency, Directed(e, forward))
  {
    adjacency := map[];
    var todo, done := e, {};
    while todo != {}
      invariant todo + done == e && todo !! done
      invariant Lists(adjacency, Directed(done, forward))
      decreases |todo|
    {
      var key :| key in todo;
      var x, y := if forward then key.earlier else key.later, if forward then key.later else key.earlier;
      var adjacency' := adjacency[x := Listed(adjacency, x) + [y]];
      AddToList(adjacency, Directed(done, forward), x, y);
      assert Directed(done + {key}, forward) == Directed(done, forward) + {EdgeKey(x, y)};
      adjacency := adjacency';
      todo, done := todo - {key}, done + {key};
    }
    assert done == e;
  }

  lemma AddToList(adjacency: map<int, seq<int>>, e: set<EdgeKey>, x: int, y: int)
    requires Lists(adjacency, e)
    ensures Lists(adjacency[x := Listed(adjacency, x) + [y]], e + {EdgeKey(x, y)})
  {
  }

  ghost function Nodes(start: int, e: set<EdgeKey>): set<int> {
    {start} + (set k | k in e :: k.later)
  }

  ghost predicate IsNode(start: int, e: set<EdgeKey>, x: int) {
    x in Nodes(start, e)
  }

  // ----- Searching -----

  // Nodes seen or still on the stack can be reached, and no edge leads from a seen node elsewhere.
  ghost predicate SearchState(e: set<EdgeKey>, start: int, seen: set<int>, stack: seq<int>) {
    && (forall x :: x in seen ==> Reaches(e, start, x))
    && (forall x :: x in stack ==> Reaches(e, start, x))
    && seen <= Nodes(start, e) && (forall x :: x in stack ==> IsNode(start, e, x))
    && (forall k :: k in e && k.earlier in seen ==> k.later in seen || k.later in stack)
    && (start in seen || start in stack)
  }

  lemma StartSearch(e: set<EdgeKey>, start: int)
    ensures SearchState(e, start, {}, [start])
  {
    Stay(e, start);
  }

  // A node seen before is passed over.
  lemma PassOver(e: set<EdgeKey>, start: int, seen: set<int>, stack: seq<int>)
    requires SearchState(e, start, seen, stack) && stack != [] && stack[|stack| - 1] in seen
    ensures SearchState(e, start, seen, stack[..|stack| - 1])
  {
    assert forall x :: x in stack ==> x in stack[..|stack| - 1] || x == stack[|stack| - 1];
  }

  // A new node goes from the stack to the seen ones, and its successors on the stack.
  lemma Visit(e: set<EdgeKey>, start: int, seen: set<int>, stack: seq<int>, next: seq<int>)
    requires SearchState(e, start, seen, stack) && stack != []
    requires var node := stack[|stack| - 1]; forall y :: y in next <==> EdgeKey(node, y) in e
    ensures SearchState(e, start, seen + {stack[|stack| - 1]}, stack[..|stack| - 1] + next)
  {
    var node := stack[|stack| - 1];
    var rest := stack[..|stack| - 1];
    assert forall x :: x in stack ==> x in rest || x == node;
    assert node in stack;
    forall x | x in next ensures Reaches(e, start, x) && IsNode(start, e, x) {
      ReachesEdge(e, node, x);
      ReachesTrans(e, start, node, x);
      assert EdgeKey(node, x) in e;
    }
  }

  lemma SearchDone(e: set<EdgeKey>, start: int, seen: set<int>)
    requires SearchState(e, start, seen, [])
    ensures forall x :: x in seen <==> Reaches(e, start, x)
  {
    forall x | Reaches(e, start, x) ensures x in seen {
      ClosedHoldsReached(e, seen, start, x);
    }
  }

  lemma SeenInNodes(e: set<EdgeKey>, start: int, seen: set<int>, stack: seq<int>)
    requires SearchState(e, start, seen, stack)
    ensures seen <= Nodes(start, e)
    ensures stack != [] ==> stack[|stack| - 1] in Nodes(start, e)
  {
    assert stack != [] ==> stack[|stack| - 1] in stack && IsNode(start, e, stack[|stack| - 1]);
  }

  /** All nodes that can be reached along the edges, or against them. */
  method CollectReachable(e: set<EdgeKey>, start: int, forward: bool) returns (seen: set<int>)
    ensures forall x :: x in seen <==> Reaches(Directed(e, forward), start, x)
  {
    hide *;
    var adjacency := BuildAdjacency(e, forward);
    ghost var d := Directed(e, forward);
    seen := {};
    var stack := [start];
    StartSearch(d, start);
    while stack != []
      invariant SearchState(d, start, seen, stack)
      decreases Nodes(start, d) - seen, |stack|
    {
      SeenInNodes(d, start, seen, stack);
      var node := stack[|stack| - 1];
      if node in seen {
        PassOver(d, start, seen, stack);
        stack := stack[..|stack| - 1];
      } else {
        var next := if node in adjacency then adjacency[node] else [];
        ListsNext(adjacency, d, node);
        Visit(d, start, seen, stack, next);
        seen := seen + {node};
        stack := stack[..|stack| - 1] + next;
      }
    }
    SearchDone(d, start, seen);
  }

  lemma ListsNext(adjacency: map<int, seq<int>>, e: set<EdgeKey>, node: int)
    requires Lists(adjacency, e)
    ensures forall y :: y in (if node in adjacency then adjacency[node] else []) <==> EdgeKey(node, y) in e
  {
  }

  // ----- Alternate paths -----

  // Another way from the start of an edge to its end.
  ghost predicate HasDetour(e: set<EdgeKey>, key: EdgeKey) {
    exists z :: EdgeKey(z, key.later) in e - {key} && Reaches(e - {key}, key.earlier, z)
  }

  // A detour is a walk without the edge.
  lemma DetourIsWalk(e: set<EdgeKey>, key: EdgeKey)
    requires key.earlier != key.later
    ensures HasDetour(e, key) <==> Reaches(e - {key}, key.earlier, key.later)
  {
    var f := e - {key};
    if HasDetour(e, key) {
      var z :| EdgeKey(z, key.later) in f && Reaches(f, key.earlier, z);
      ReachesEdge(f, z, key.later);
      ReachesTrans(f, key.earlier, z, key.later);
    }
    if Reaches(f, key.earlier, key.later) {
      var p :| WalkFromTo(f, p, key.earlier, key.later);
      var z := LastEdge(f, p, key.earlier, key.later);
    }
  }

  lemma {:induction false} LastEdge(e: set<EdgeKey>, p: seq<int>, x: int, y: int) returns (z: int)
    requires WalkFromTo(e, p, x, y) && x != y
    ensures EdgeKey(z, y) in e && Reaches(e, x, z)
    decreases |p|
  {
    FirstEdge(e, p, x, y);
    if p[1] == y {
      z := x;
      Stay(e, x);
    } else {
      z := LastEdge(e, p[1..], p[1], y);
      ReachesEdge(e, x, p[1]);
      ReachesTrans(e, x, p[1], z);
    }
  }

  /** Whether the end of an edge can be reached from its start without the edge. */
  method HasAlternatePath(from: int, to: int, adjacency: map<int, seq<int>>, skipEdge: EdgeKey, ghost e: set<EdgeKey>)
    returns (found: bool)
    requires Lists(adjacency, e) && skipEdge == EdgeKey(from, to)
    ensures found <==> HasDetour(e, skipEdge)
  {
    hide *;
    ghost var f := e - {skipEdge};
    var stack := [from];
    var seen: set<int> := {};
    StartSearch(f, from);
    while stack != []
      invariant SearchState(f, from, seen, stack)
      invariant forall z :: z in seen ==> EdgeKey(z, to) !in f
      decreases Nodes(from, f) - seen, |stack|
    {
      SeenInNodes(f, from, seen, stack);
      var node := stack[|stack| - 1];
      if node in seen {
        PassOver(f, from, seen, stack);
        stack := stack[..|stack| - 1];
      } else {
        var next := if node in adjacency then adjacency[node] else [];
        ListsNext(adjacency, e, node);
        var pushed: seq<int> := [];
        for i := 0 to |next|
          invariant forall y :: y in pushed <==> y in next[..i] && EdgeKey(node, y) != skipEdge
          invariant to !in pushed
        {
          assert next[..i + 1] == next[..i] + [next[i]];
          if EdgeKey(node, next[i]) != skipEdge {
            if next[i] == to {
              assert next[i] in next;
              TopIsReached(f, from, seen, stack);
              FoundDetour(e, skipEdge, node);
              return true;
            }
            pushed := pushed + [next[i]];
          }
        }
        assert next[..|next|] == next;
        Visit(f, from, seen, stack, pushed);
        seen := seen + {node};
        stack := stack[..|stack| - 1] + pushed;
      }
    }
    found := false;
    SearchDone(f, from, seen);
    NoDetour(e, skipEdge, seen);
  }

  lemma TopIsReached(e: set<EdgeKey>, start: int, seen: set<int>, stack: seq<int>)
    requires SearchState(e, start, seen, stack) && stack != []
    ensures Reaches(e, start, stack[|stack| - 1])
  {
    assert stack[|stack| - 1] in stack;
  }

  lemma FoundDetour(e: set<EdgeKey>, key: EdgeKey, z: int)
    requires EdgeKey(z, key.later) in e - {key} && Reaches(e - {key}, key.earlier, z)
    ensures HasDetour(e, key)
  {
  }

  lemma NoDetour(e: set<EdgeKey>, key: EdgeKey, seen: set<int>)
    requires forall x :: x in seen <==> Reaches(e - {key}, key.earlier, x)
    requires forall z :: z in seen ==> EdgeKey(z, key.later) !in e - {key}
    ensures !HasDetour(e, key)
  {
  }

  // ----- Reduction -----

  // The edges that no detour replaces.
  ghost function Reduced(e: set<EdgeKey>): set<EdgeKey> {
    set k | k in e && !HasDetour(e, k)
  }

  /** Drops all edges with a detour in the graph as it was, all at once. */
  method ReduceEdges<V>(edges: map<EdgeKey, V>) returns (reduced: map<EdgeKey, V>)
    ensures reduced.Keys == Reduced(edges.Keys)
    ensures forall k :: k in reduced ==> reduced[k] == edges[k]
  {
    hide HasDetour, Lists;
    var adjacency := BuildAdjacency(edges.Keys, true);
    var todo, toRemove := edges.Keys, {};
    while todo != {}
      invariant todo <= edges.Keys
      invariant forall k :: k in toRemove <==> k in edges.Keys && k !in todo && HasDetour(edges.Keys, k)
      decreases |todo|
    {
      var key :| key in todo;
      var alternate := HasAlternatePath(key.earlier, key.later, adjacency, key, edges.Keys);
      if alternate {
        toRemove := toRemove + {key};
      }
      todo := todo - {key};
    }
    reduced := edges - toRemove;
  }

  // Every edge runs from an earlier patch to a later one.
  ghost predicate Ascending(e: set<EdgeKey>) {
    forall k :: k in e ==> k.earlier < k.later
  }

  lemma {:induction false} WalkAscends(e: set<EdgeKey>, p: seq<int>, x: int, y: int)
    requires Ascending(e) && WalkFromTo(e, p, x, y)
    ensures x <= y && (|p| > 1 ==> x < y)
    decreases |p|
  {
    if |p| > 1 {
      FirstEdge(e, p, x, y);
      WalkAscends(e, p[1..], p[1], y);
    }
  }

  // The edges of a detour are shorter than the edge it goes around, so they can be replaced first.
  lemma {:induction false} EdgeKept(e: set<EdgeKey>, key: EdgeKey)
    requires Ascending(e) && key in e
    ensures Reaches(Reduced(e), key.earlier, key.later)
    decreases key.later - key.earlier, 1, 0
  {
    if key in Reduced(e) {
      ReachesEdge(Reduced(e), key.earlier, key.later);
    } else {
      DetourIsWalk(e, key);
      var p :| WalkFromTo(e - {key}, p, key.earlier, key.later);
      FirstEdge(e - {key}, p, key.earlier, key.later);
      WalkAscends(e - {key}, p[1..], p[1], key.later);
      var first := EdgeKey(key.earlier, p[1]);
      assert first != key;
      EdgeKept(e, first);
      WalkKept(e, key, p[1..], p[1]);
      ReachesTrans(Reduced(e), key.earlier, p[1], key.later);
    }
  }

  lemma {:induction false} WalkKept(e: set<EdgeKey>, key: EdgeKey, p: seq<int>, x: int)
    requires Ascending(e) && key in e && key.earlier < x && WalkFromTo(e - {key}, p, x, key.later)
    ensures Reaches(Reduced(e), x, key.later)
    decreases key.later - key.earlier, 0, |p|
  {
    if |p| == 1 {
      Stay(Reduced(e), x);
    } else {
      FirstEdge(e - {key}, p, x, key.later);
      WalkAscends(e - {key}, p[1..], p[1], key.later);
      EdgeKept(e, EdgeKey(x, p[1]));
      WalkKept(e, key, p[1..], p[1]);
      ReachesTrans(Reduced(e), x, p[1], key.later);
    }
  }

  lemma {:induction false} WalkInReduced(e: set<EdgeKey>, p: seq<int>, x: int, y: int)
    requires Ascending(e) && WalkFromTo(e, p, x, y)
    ensures Reaches(Reduced(e), x, y)
    decreases |p|
  {
    if |p| == 1 {
      Stay(Reduced(e), x);
    } else {
      FirstEdge(e, p, x, y);
      EdgeKept(e, EdgeKey(x, p[1]));
      WalkInReduced(e, p[1..], p[1], y);
      ReachesTrans(Reduced(e), x, p[1], y);
    }
  }

  /** The reduced graph reaches the same, no edge of it can be left out, and it is part of every
      other selection of edges that reaches the same: it is the transitive reduction. */
  lemma ReductionIsTransitiveReduction(e: set<EdgeKey>)
    requires Ascending(e)
    ensures forall x, y :: Reaches(Reduced(e), x, y) <==> Reaches(e, x, y)
    ensures forall k :: k in Reduced(e) ==> !Reaches(Reduced(e) - {k}, k.earlier, k.later)
    ensures forall s :: s <= e && (forall x, y :: Reaches(s, x, y) <==> Reaches(e, x, y)) ==> Reduced(e) <= s
  {
    forall x, y ensures Reaches(Reduced(e), x, y) <==> Reaches(e, x, y) {
      if Reaches(Reduced(e), x, y) {
        ReachesMonotone(Reduced(e), e, x, y);
      }
      if Reaches(e, x, y) {
        var p :| WalkFromTo(e, p, x, y);
        WalkInReduced(e, p, x, y);
      }
    }
    forall k | k in Reduced(e) ensures !Reaches(Reduced(e) - {k}, k.earlier, k.later) {
      NoWayAround(e, k, Reduced(e) - {k});
    }
    forall s | s <= e && (forall x, y :: Reaches(s, x, y) <==> Reaches(e, x, y)) ensures Reduced(e) <= s {
      forall k | k in Reduced(e) ensures k in s {
        ReachesEdge(e, k.earlier, k.later);
        if k !in s {
          NoWayAround(e, k, s);
        }
      }
    }
  }

  lemma NoWayAround(e: set<EdgeKey>, k: EdgeKey, s: set<EdgeKey>)
    requires Ascending(e) && k in Reduced(e) && s <= e - {k}
    ensures !Reaches(s, k.earlier, k.later)
  {
    DetourIsWalk(e, k);
    if Reaches(s, k.earlier, k.later) {
      ReachesMonotone(s, e - {k}, k.earlier, k.later);
    }
  }

  // ----- Building the graph -----

  // A patch depends, for a file, on the last earlier patch of that file it is in conflict with.
  ghost predicate DependsOn(nodes: seq<set<string>>, conflict: (int, int, string) -> bool, i: int, j: int, file: string) {
    && 0 <= i < j < |nodes| && file in nodes[i] && file in nodes[j] && conflict(j, i, file)
    && forall k :: i < k < j && file in nodes[k] ==> !conflict(j, k, file)
  }

  function SeenFor(seen: map<string, seq<int>>, file: string): seq<int> {
    if file in seen then seen[file] else []
  }

  // The patches before upTo that touch a file, in order.
  ghost predicate Touches(nodes: seq<set<string>>, s: seq<int>, file: string, upTo: nat) {
    && upTo <= |nodes|
    && (forall a :: 0 <= a < |s| ==> 0 <= s[a] < upTo && file in nodes[s[a]])
    && (forall i :: 0 <= i < upTo && file in nodes[i] ==> i in s)
    && (forall a, b :: 0 <= a < b < |s| ==> s[a] < s[b])
  }

  // All files are seen up to patch j, and the given ones also in patch j.
  ghost predicate AllSeen(nodes: seq<set<string>>, seen: map<string, seq<int>>, j: nat, files: set<string>) {
    forall f :: Touches(nodes, SeenFor(seen, f), f, if f in files then j + 1 else j)
  }

  ghost predicate Named(edges: map<EdgeKey, seq<string>>, k: EdgeKey, f: string) {
    k in edges && f in edges[k]
  }

  ghost predicate Due(nodes: seq<set<string>>, conflict: (int, int, string) -> bool, j: nat, files: set<string>, k: EdgeKey, f: string) {
    DependsOn(nodes, conflict, k.earlier, k.later, f) && (k.later < j || (k.later == j && f in files))
  }

  // The edges name exactly the dependencies of the patches before j, and of patch j for the given files.
  ghost predicate EdgesSoFar(nodes: seq<set<string>>, conflict: (int, int, string) -> bool, edges: map<EdgeKey, seq<string>>,
                             j: nat, files: set<string>) {
    && (forall k :: k in edges ==> edges[k] != [])
    && (forall k, f :: Named(edges, k, f) <==> Due(nodes, conflict, j, files, k, f))
  }

  // The latest patch in conflict with patch j, or -1.
  method LastConflict(ghost nodes: seq<set<string>>, s: seq<int>, conflict: (int, int, string) -> bool, j: nat, file: string)
    returns (dependency: int)
    requires j < |nodes| && Touches(nodes, s, file, j) && file in nodes[j]
    ensures dependency >= 0 ==> DependsOn(nodes, conflict, dependency, j, file)
    ensures dependency < 0 ==> forall i :: !DependsOn(nodes, conflict, i, j, file)
  {
    var a := |s|;
    while a > 0
      invariant 0 <= a <= |s|
      invariant forall b :: a <= b < |s| ==> !conflict(j, s[b], file)
    {
      a := a - 1;
      if conflict(j, s[a], file) {
        forall k | s[a] < k < j && file in nodes[k] ensures !conflict(j, k, file) {
          assert k in s;
        }
        return s[a];
      }
    }
    dependency := -1;
    forall i ensures !DependsOn(nodes, conflict, i, j, file) {
      if 0 <= i < j && file in nodes[i] {
        assert i in s;
      }
    }
  }

  lemma OneDependency(nodes: seq<set<string>>, conflict: (int, int, string) -> bool, i: int, i': int, j: int, file: string)
    requires DependsOn(nodes, conflict, i, j, file) && DependsOn(nodes, conflict, i', j, file)
    ensures i == i'
  {
  }

  lemma AddDependency(nodes: seq<set<string>>, conflict: (int, int, string) -> bool, edges: map<EdgeKey, seq<string>>,
                      j: nat, files: set<string>, file: string, dependency: int)
    requires EdgesSoFar(nodes, conflict, edges, j, files) && file !in files
    requires if dependency >= 0 then DependsOn(nodes, conflict, dependency, j, file)
             else forall i :: !DependsOn(nodes, conflict, i, j, file)
    ensures var key := EdgeKey(dependency, j);
            EdgesSoFar(nodes, conflict,
                       if dependency >= 0 then edges[key := (if key in edges then edges[key] else []) + [file]] else edges,
                       j, files + {file})
  {
    var key := EdgeKey(dependency, j);
    var names := (if key in edges then edges[key] else []) + [file];
    var edges' := if dependency >= 0 then edges[key := names] else edges;
    forall k, f
      ensures Named(edges', k, f) <==> Due(nodes, conflict, j, files + {file}, k, f)
    {
      assert Named(edges, k, f) <==> Due(nodes, conflict, j, files, k, f);
      assert Named(edges', k, f) <==> Named(edges, k, f) || (dependency >= 0 && k == key && f == file);
      if f == file && DependsOn(nodes, conflict, k.earlier, j, f) && dependency >= 0 {
        OneDependency(nodes, conflict, k.earlier, dependency, j, f);
      }
    }
  }

  lemma SeeFile(nodes: seq<set<string>>, seen: map<string, seq<int>>, j: nat, files: set<string>, file: string)
    requires j < |nodes| && AllSeen(nodes, seen, j, files) && file !in files && file in nodes[j]
    ensures AllSeen(nodes, seen[file := SeenFor(seen, file) + [j]], j, files + {file})
  {
    hide Touches;
    var seen' := seen[file := SeenFor(seen, file) + [j]];
    forall f ensures Touches(nodes, SeenFor(seen', f), f, if f in files + {file} then j + 1 else j) {
      assert Touches(nodes, SeenFor(seen, f), f, if f in files then j + 1 else j);
      if f == file {
        TouchesNext(nodes, SeenFor(seen, f), f, j);
      }
    }
  }

  lemma TouchesNext(nodes: seq<set<string>>, s: seq<int>, file: string, j: nat)
    requires j < |nodes| && Touches(nodes, s, file, j)
    ensures file in nodes[j] ==> Touches(nodes, s + [j], file, j + 1)
    ensures file !in nodes[j] ==> Touches(nodes, s, file, j + 1)
  {
    assert forall i :: i in s ==> i in s + [j];
    assert (s + [j])[|s|] == j;
  }

  lemma NextPatch(nodes: seq<set<string>>, conflict: (int, int, string) -> bool, edges: map<EdgeKey, seq<string>>,
                  seen: map<string, seq<int>>, j: nat)
    requires j < |nodes| && AllSeen(nodes, seen, j, nodes[j]) && EdgesSoFar(nodes, conflict, edges, j, nodes[j])
    ensures AllSeen(nodes, seen, j + 1, {}) && EdgesSoFar(nodes, conflict, edges, j + 1, {})
  {
    hide Touches;
    forall f ensures Touches(nodes, SeenFor(seen, f), f, j + 1) {
      assert Touches(nodes, SeenFor(seen, f), f, if f in nodes[j] then j + 1 else j);
      if f !in nodes[j] {
        TouchesNext(nodes, SeenFor(seen, f), f, j);
      }
    }
    forall k, f ensures Named(edges, k, f) <==> Due(nodes, conflict, j + 1, {}, k, f) {
      assert Named(edges, k, f) <==> Due(nodes, conflict, j, nodes[j], k, f);
    }
  }

  lemma NoEdgesYet(nodes: seq<set<string>>, conflict: (int, int, string) -> bool)
    ensures AllSeen(nodes, map[], 0, {}) && EdgesSoFar(nodes, conflict, map[], 0, {})
  {
  }

  lemma SeenAt(nodes: seq<set<string>>, seen: map<string, seq<int>>, j: nat, files: set<string>, file: string)
    requires AllSeen(nodes, seen, j, files) && file !in files
    ensures Touches(nodes, SeenFor(seen, file), file, j)
  {
  }

  lemma AllEdges(nodes: seq<set<string>>, conflict: (int, int, string) -> bool, edges: map<EdgeKey, seq<string>>)
    requires EdgesSoFar(nodes, conflict, edges, |nodes|, {})
    ensures forall k, f :: Named(edges, k, f) <==> DependsOn(nodes, conflict, k.earlier, k.later, f)
    ensures Ascending(edges.Keys)
  {
    forall k, f ensures Named(edges, k, f) <==> DependsOn(nodes, conflict, k.earlier, k.later, f) {
      assert Named(edges, k, f) <==> Due(nodes, conflict, |nodes|, {}, k, f);
    }
    forall k | k in edges.Keys ensures k.earlier < k.later {
      assert Named(edges, k, edges[k][0]);
    }
  }

  /** The graph has an edge for a file exactly where one patch depends on another for it, and every
      edge runs from an earlier patch to a later one. */
  method BuildEdges(nodes: seq<set<string>>, conflict: (int, int, string) -> bool) returns (edges: map<EdgeKey, seq<string>>)
    ensures forall k, f :: Named(edges, k, f) <==> DependsOn(nodes, conflict, k.earlier, k.later, f)
    ensures Ascending(edges.Keys)
  {
    hide *;
    var filesSeen: map<string, seq<int>> := map[];
    edges := map[];
    NoEdgesYet(nodes, conflict);
    for j := 0 to |nodes|
      invariant AllSeen(nodes, filesSeen, j, {}) && EdgesSoFar(nodes, conflict, edges, j, {})
    {
      var todo, done := nodes[j], {};
      while todo != {}
        invariant todo + done == nodes[j] && todo !! done
        invariant AllSeen(nodes, filesSeen, j, done) && EdgesSoFar(nodes, conflict, edges, j, done)
        decreases |todo|
      {
        var file :| file in todo;
        SeenAt(nodes, filesSeen, j, done, file);
        var dependency := LastConflict(nodes, SeenFor(filesSeen, file), conflict, j, file);
        AddDependency(nodes, conflict, edges, j, done, file, dependency);
        if dependency >= 0 {
          var key := EdgeKey(dependency, j);
          edges := edges[key := (if key in edges then edges[key] else []) + [file]];
        }
        SeeFile(nodes, filesSeen, j, done, file);
        filesSeen := filesSeen[file := SeenFor(filesSeen, file) + [j]];
        todo, done := todo - {file}, done + {file};
      }
      assert done == nodes[j];
      NextPatch(nodes, conflict, edges, filesSeen, j);
    }
    AllEdges(nodes, conflict, edges);
  }
}
