/** Hash tries: four-way trees of linked nodes, walked two bits of the hash at a time. */
module HashTrie {
  import opened Common

  // What is left of the hash after so many steps down.
  function Shifted(h: bv64, n: nat): bv64 {
    if n == 0 then h else Shifted(h, n - 1) << 2
  }

  function TopBits(h: bv64): (c: nat)
    ensures c < 4
  {
    (h >> 62) as nat
  }

  // The way a hash leads in so many steps; once the hash is used up it goes on through child 0.
  function PathOf(h: bv64, n: nat): (p: seq<nat>)
    ensures |p| == n
  {
    if n == 0 then [] else PathOf(h, n - 1) + [TopBits(Shifted(h, n - 1))]
  }

  lemma {:induction false} PathPrefix(h: bv64, m: nat, n: nat)
    requires m <= n
    ensures PathOf(h, n)[..m] == PathOf(h, m)
  {
    if m < n {
      PathPrefix(h, m, n - 1);
    }
  }

  lemma NextStep(h: bv64, n: nat)
    ensures Shifted(h, n + 1) == Shifted(h, n) << 2
    ensures PathOf(h, n + 1) == PathOf(h, n) + [TopBits(Shifted(h, n))]
  {
  }

  lemma FirstStep(h: bv64)
    ensures Shifted(h, 0) == h && PathOf(h, 0) == []
  {
  }

  // ----- Hashes of 32 bits -----

  // A hash of 32 bits as the upper half of one of 64.
  function Widened(h: bv32): bv64 {
    (h as bv64) << 32
  }

  function NarrowShifted(h: bv32, n: nat): bv32 {
    if n == 0 then h else NarrowShifted(h, n - 1) << 2
  }

  // The way a walk goes that keeps 32 bits and takes the highest two of them at each step.
  function NarrowPath(h: bv32, n: nat): seq<nat> {
    if n == 0 then [] else NarrowPath(h, n - 1) + [(NarrowShifted(h, n - 1) >> 30) as nat]
  }

  lemma WidenedOnce(h: bv32)
    ensures Widened(h << 2) == Widened(h) << 2
  {
  }

  lemma WidenedTop(h: bv32)
    ensures TopBits(Widened(h)) == (h >> 30) as nat
  {
    assert Widened(h) >> 62 == (h >> 30) as bv64;
  }

  lemma NarrowOnce(h: bv32, n: nat)
    ensures NarrowShifted(h, 0) == h
    ensures NarrowShifted(h, n + 1) == NarrowShifted(h, n) << 2
  {
  }

  lemma {:induction false} WidenedShifted(h: bv32, n: nat)
    ensures Shifted(Widened(h), n) == Widened(NarrowShifted(h, n))
  {
    hide *;
    FirstStep(Widened(h));
    NarrowOnce(h, 0);
    if n > 0 {
      WidenedShifted(h, n - 1);
      WidenedOnce(NarrowShifted(h, n - 1));
      NarrowOnce(h, n - 1);
      NextStep(Widened(h), n - 1);
    }
  }

  /** A trie over 32-bit hashes is the one over 64-bit hashes whose upper halves these are. */
  lemma {:induction false} NarrowWalk(h: bv32, n: nat)
    ensures PathOf(Widened(h), n) == NarrowPath(h, n)
  {
    hide Widened, TopBits;
    if n > 0 {
      NarrowWalk(h, n - 1);
      WidenedShifted(h, n - 1);
      WidenedTop(NarrowShifted(h, n - 1));
    }
  }

  class Node<V> {
    const key: string
    var value: Option<V>
    var child: seq<Node?<V>>

    constructor (key: string)
      ensures this.key == key && value == None && child == [null, null, null, null]
    {
      this.key, value, child := key, None, [null, null, null, null];
    }
  }

  class Trie<V> {
    const hash: string -> bv64
    var root: Node?<V>
    ghost var nodes: map<seq<nat>, Node<V>>

    ghost function At(p: seq<nat>): Node?<V>
      reads this
    {
      if p in nodes then nodes[p] else null
    }

    ghost predicate LinkedAt(p: seq<nat>)
      requires p in nodes
      reads this, {nodes[p]}`child
    {
      |nodes[p].child| == 4 && forall c :: 0 <= c < 4 ==> nodes[p].child[c] == At(p + [c])
    }

    ghost predicate Linked()
      reads this, nodes.Values`child
    {
      root == At([]) && forall p :: p in nodes ==> LinkedAt(p)
    }

    ghost predicate Hanging()
      reads this
    {
      forall p :: p in nodes && p != [] ==> p[..|p| - 1] in nodes
    }

    // Every node hangs where its parent says, on the way its own hash leads, and no two have the same key.
    ghost predicate Valid()
      reads this, nodes.Values`child
    {
      Linked() && Hanging() && Keyed()
    }

    ghost predicate Keyed()
      reads this
    {
      AllKeyed(nodes)
    }

    ghost predicate AllKeyed(was: map<seq<nat>, Node<V>>) {
      && (forall p :: p in was ==> p == PathOf(hash(was[p].key), |p|))
      && (forall p, q :: p in was && q in was && p != q ==> was[p].key != was[q].key)
    }

    // The map the nodes stand for; a key may be there without a value.
    ghost function Contents(): map<string, Option<V>>
      requires Valid()
      reads this, nodes.Values`value, nodes.Values`child
    {
      map p | p in nodes :: nodes[p].key := nodes[p].value
    }

    constructor (hash: string -> bv64)
      ensures this.hash == hash && Valid() && nodes == map[] && Contents() == map[]
    {
      this.hash := hash;
      root := null;
      nodes := map[];
    }

    lemma OnTheWay(key: string, p: seq<nat>, n: nat)
      requires Hanging() && Keyed() && p in nodes && nodes[p].key == key && n <= |p|
      ensures PathOf(hash(key), n) in nodes
    {
      hide Hanging;
      PathPrefix(hash(key), n, |p|);
      PrefixHangs(p, n);
    }

    lemma ParentHangs(p: seq<nat>)
      requires Hanging() && p in nodes && p != []
      ensures p[..|p| - 1] in nodes
    {
    }

    lemma {:induction false} PrefixHangs(p: seq<nat>, n: nat)
      requires Hanging() && p in nodes && n <= |p|
      ensures p[..n] in nodes
      decreases |p|
    {
      hide Hanging;
      if n < |p| {
        ParentHangs(p);
        PrefixHangs(p[..|p| - 1], n);
        assert p[..|p| - 1][..n] == p[..n];
      } else {
        assert p[..n] == p;
      }
    }

    // No node on the way to a gap has the key: then none has.
    lemma NotThere(key: string, n: nat)
      requires Valid() && PathOf(hash(key), n) !in nodes && Passed(key, n)
      ensures forall p :: p in nodes ==> nodes[p].key != key
    {
      hide Hanging, Linked;
      forall p | p in nodes ensures nodes[p].key != key {
        if nodes[p].key == key {
          assert p == PathOf(hash(key), |p|);
          assert |p| >= n;
          OnTheWay(key, p, n);
        }
      }
    }

    lemma ChildOf(p: seq<nat>, c: nat)
      requires Linked() && p in nodes && c < 4
      ensures |nodes[p].child| == 4 && nodes[p].child[c] == At(p + [c])
    {
      assert LinkedAt(p);
    }

    lemma RootOf()
      requires Linked()
      ensures root == At([])
    {
    }

    // The first steps of the way lead over nodes, none of them with the key.
    ghost predicate Passed(key: string, n: nat)
      reads this
    {
      forall k :: 0 <= k < n ==> At(PathOf(hash(key), k)) != null && At(PathOf(hash(key), k)).key != key
    }

    // The way is at the child c of the parent, or, without a parent, at the root.
    ghost predicate Hook(key: string, n: nat, parent: Node?<V>, c: nat)
      reads this
    {
      if n == 0 then parent == null
      else parent != null && parent == At(PathOf(hash(key), n - 1)) && c == TopBits(Shifted(hash(key), n - 1))
    }

    lemma GoDown(key: string, n: nat, m: Node<V>)
      requires Linked() && m == At(PathOf(hash(key), n)) && m.key != key && Passed(key, n)
      ensures var c := TopBits(Shifted(hash(key), n));
              && |m.child| == 4 && m.child[c] == At(PathOf(hash(key), n + 1))
              && Passed(key, n + 1) && Hook(key, n + 1, m, c)
      ensures Shifted(hash(key), n + 1) == Shifted(hash(key), n) << 2
    {
      hide Linked;
      NextStep(hash(key), n);
      ChildOf(PathOf(hash(key), n), TopBits(Shifted(hash(key), n)));
    }

    // Walks down to the key or to the gap where it belongs.
    method Walk(key: string) returns (m: Node?<V>, parent: Node?<V>, c: nat, ghost n: nat)
      requires Valid()
      ensures m != null ==> m in nodes.Values && m.key == key
      ensures m == null ==> PathOf(hash(key), n) !in nodes && Hook(key, n, parent, c)
      ensures m == null ==> forall p :: p in nodes ==> nodes[p].key != key
    {
      hide Hanging, Linked, LinkedAt, Keyed, PathOf, Shifted, TopBits, Passed, Hook;
      RootOf();
      FirstStep(hash(key));
      AtRoot(key);
      var h := hash(key);
      m, parent, c, n := root, null, 0, 0;
      ghost var left := nodes.Keys;
      while m != null
        invariant m == At(PathOf(hash(key), n)) && h == Shifted(hash(key), n)
        invariant Passed(key, n) && Hook(key, n, parent, c)
        invariant forall p :: p in nodes && |p| >= n ==> p in left
        decreases left
      {
        if m.key == key {
          return;
        }
        GoDown(key, n, m);
        left := left - {PathOf(hash(key), n)};
        parent, c := m, TopBits(h);
        m := m.child[c];
        h := h << 2;
        n := n + 1;
      }
      NotThere(key, n);
    }

    lemma AtRoot(key: string)
      ensures Passed(key, 0) && Hook(key, 0, null, 0)
    {
    }

    ghost function Among(was: map<seq<nat>, Node<V>>, p: seq<nat>): Node?<V> {
      if p in was then was[p] else null
    }

    // After a new node has been hung into a gap, every node still hangs where its parent says.
    lemma StillLinked(was: map<seq<nat>, Node<V>>, at: seq<nat>, m: Node<V>)
      requires at !in was && nodes == was[at := m]
      requires root == if at == [] then m else Among(was, [])
      requires forall c :: 0 <= c < 4 ==> at + [c] !in was
      requires m.child == [null, null, null, null]
      requires forall p :: p in was ==> |was[p].child| == 4
      requires forall p, c :: p in was && 0 <= c < 4 ==>
                 was[p].child[c] == if p + [c] == at then m else Among(was, p + [c])
      ensures Linked()
    {
      forall p | p in nodes ensures LinkedAt(p) {
        forall c | 0 <= c < 4 ensures nodes[p].child[c] == At(p + [c]) {
          if p == at {
            assert at + [c] != at;
          }
        }
      }
    }

    // No node hangs below a gap.
    lemma NothingBelow(at: seq<nat>, c: nat)
      requires Hanging() && at !in nodes
      ensures at + [c] !in nodes
    {
      assert (at + [c])[..|at|] == at;
    }

    lemma StillKeyed(was: map<seq<nat>, Node<V>>, at: seq<nat>, m: Node<V>)
      requires nodes == was[at := m] && at == PathOf(hash(m.key), |at|)
      requires AllKeyed(was) && forall p :: p in was ==> was[p].key != m.key
      ensures Keyed()
    {
    }

    // There is room for a node at the child c of the parent, or, without a parent, at the root.
    ghost predicate Gap(at: seq<nat>, parent: Node?<V>, c: nat)
      reads this
    {
      && at !in nodes
      && (forall d :: 0 <= d < 4 ==> at + [d] !in nodes)
      && (parent == null <==> at == [])
      && (parent != null ==> c < 4 && parent in nodes.Values)
      && OnlyThere(at, parent, c)
    }

    ghost predicate OnlyThere(at: seq<nat>, parent: Node?<V>, c: nat)
      reads this
    {
      forall p, d: nat :: p in nodes ==> (p + [d] == at <==> nodes[p] == parent && d == c)
    }

    lemma FindGap(key: string, n: nat, parent: Node?<V>, c: nat)
      requires Valid() && PathOf(hash(key), n) !in nodes && Hook(key, n, parent, c)
      ensures Gap(PathOf(hash(key), n), parent, c)
      ensures n > 0 ==> PathOf(hash(key), n)[..n - 1] in nodes
    {
      hide Linked, LinkedAt, PathOf, Shifted, TopBits, Keyed, OnlyThere, Hanging;
      var at := PathOf(hash(key), n);
      forall d | 0 <= d < 4 ensures at + [d] !in nodes {
        NothingBelow(at, d);
      }
      if n > 0 {
        NextStep(hash(key), n - 1);
        OnlyChild(PathOf(hash(key), n - 1), c, parent);
        assert at[..n - 1] == PathOf(hash(key), n - 1);
      } else {
        NoChild();
        FirstStep(hash(key));
      }
    }

    lemma NoChild()
      ensures OnlyThere([], null, 0) && forall c :: OnlyThere([], null, c)
    {
    }

    lemma OnlyChild(up: seq<nat>, c: nat, parent: Node<V>)
      requires Keyed() && up in nodes && nodes[up] == parent
      ensures OnlyThere(up + [c], parent, c)
    {
      forall p, d: nat | p in nodes ensures p + [d] == up + [c] <==> nodes[p] == parent && d == c {
        assert (p + [d])[..|p|] == p && (up + [c])[..|up|] == up;
        assert (p + [d])[|p|] == d && (up + [c])[|up|] == c;
        if p + [d] == up + [c] {
          assert |p| == |up|;
        }
      }
    }

    method Hang(m: Node<V>, parent: Node?<V>, c: nat, ghost at: seq<nat>)
      requires Linked() && Gap(at, parent, c) && m.child == [null, null, null, null] && m !in nodes.Values
      modifies this`root, this`nodes, (if parent == null then {} else {parent})`child
      ensures Linked() && nodes == old(nodes)[at := m]
    {
      ghost var was := nodes;
      forall p, d | p in nodes && 0 <= d < 4 ensures |nodes[p].child| == 4 && nodes[p].child[d] == Among(nodes, p + [d]) {
        ChildOf(p, d);
      }
      forall p | p in nodes ensures |nodes[p].child| == 4 {
        ChildOf(p, 0);
      }
      RootOf();
      hide Linked, LinkedAt;
      if parent == null {
        root := m;
      } else {
        parent.child := parent.child[c := m];
      }
      nodes := nodes[at := m];
      StillLinked(was, at, m);
    }

    lemma KeyedMeans()
      requires Valid()
      ensures AllKeyed(nodes)
    {
    }

    lemma OneKeyEach()
      requires Valid()
      ensures forall p, q :: p in nodes && q in nodes && p != q ==> nodes[p].key != nodes[q].key
    {
      hide Linked, Hanging, PathOf;
    }

    lemma StillHanging(was: map<seq<nat>, Node<V>>, at: seq<nat>, m: Node<V>)
      requires nodes == was[at := m] && (at == [] || at[..|at| - 1] in was) && Hung(was)
      ensures Hanging()
    {
    }

    ghost predicate Hung(was: map<seq<nat>, Node<V>>) {
      forall p :: p in was && p != [] ==> p[..|p| - 1] in was
    }

    lemma HangingMeans()
      requires Valid()
      ensures Hung(nodes)
    {
    }

    method Add(key: string, parent: Node?<V>, c: nat, ghost n: nat) returns (m: Node<V>)
      requires Valid() && PathOf(hash(key), n) !in nodes && Hook(key, n, parent, c)
      requires forall p :: p in nodes ==> nodes[p].key != key
      modifies this`root, this`nodes, nodes.Values`child
      ensures Valid() && fresh(m) && m.key == key && m.value == None
      ensures m in nodes.Values && fresh(nodes.Values - old(nodes.Values))
      ensures nodes == old(nodes)[PathOf(hash(key), n) := m]
    {
      hide *;
      ValidParts();
      ghost var at := PathOf(hash(key), n);
      ghost var was := nodes;
      FindGap(key, n, parent, c);
      GapFree(at, parent, c);
      KeyedMeans();
      HangingMeans();
      m := new Node(key);
      Hang(m, parent, c, at);
      assert Valid() by {
        StillHanging(was, at, m);
        StillKeyed(was, at, m);
        ValidParts();
      }
      assert nodes[at] == m;
    }

    lemma ValidParts()
      ensures Valid() <==> Linked() && Hanging() && Keyed()
    {
    }

    lemma GapFree(at: seq<nat>, parent: Node?<V>, c: nat)
      requires Gap(at, parent, c)
      ensures at !in nodes && (parent != null ==> parent in nodes.Values)
    {
    }

    // The map says exactly what these nodes hold.
    ghost predicate Stands(was: map<seq<nat>, Node<V>>, before: map<string, Option<V>>)
      reads was.Values`value
    {
      && (forall p :: p in was ==> was[p].key in before && before[was[p].key] == was[p].value)
      && (forall key :: key in before ==> exists p :: p in was && was[p].key == key)
    }

    lemma ContentsStand()
      requires Valid()
      ensures Stands(nodes, Contents())
    {
      hide Linked, Hanging, PathOf;
    }

    lemma StandsFor(was: map<seq<nat>, Node<V>>, before: map<string, Option<V>>, m: Node<V>)
      requires Stands(was, before) && m in was.Values
      ensures m.key in before && before[m.key] == m.value
    {
    }

    lemma Absent(was: map<seq<nat>, Node<V>>, before: map<string, Option<V>>, key: string)
      requires Stands(was, before) && forall p :: p in was ==> was[p].key != key
      ensures key !in before
    {
    }

    // Only one map stands for the same nodes.
    lemma SameMap(was: map<seq<nat>, Node<V>>, before: map<string, Option<V>>, after: map<string, Option<V>>)
      requires Stands(was, before) && Stands(was, after)
      ensures before == after
    {
      assert forall key :: key in before ==> key in after && before[key] == after[key];
      assert forall key :: key in after ==> key in before;
    }

    lemma StandsGrown(was: map<seq<nat>, Node<V>>, before: map<string, Option<V>>, at: seq<nat>, m: Node<V>)
      requires at !in was && Stands(was, before) && m.key !in before
      ensures Stands(was[at := m], before[m.key := m.value])
    {
      var now := was[at := m];
      assert now[at] == m;
      forall key | key in before ensures exists p :: p in now && now[p].key == key {
        var p :| p in was && was[p].key == key;
        assert now[p] == was[p];
      }
    }

    lemma Grown(was: map<seq<nat>, Node<V>>, before: map<string, Option<V>>, at: seq<nat>, m: Node<V>)
      requires Valid() && nodes == was[at := m] && at !in was && Stands(was, before) && m.key !in before
      ensures Contents() == before[m.key := m.value]
    {
      hide Valid, Contents, Stands;
      ContentsStand();
      StandsGrown(was, before, at, m);
      SameMap(nodes, before[m.key := m.value], Contents());
    }

    // The walk as it looks from the map.
    method Find(key: string) returns (m: Node?<V>, parent: Node?<V>, c: nat, ghost n: nat)
      requires Valid()
      ensures m != null ==> m in nodes.Values && m.key == key && key in Contents() && m.value == Contents()[key]
      ensures m == null ==> key !in Contents() && PathOf(hash(key), n) !in nodes && Hook(key, n, parent, c)
    {
      hide *;
      m, parent, c, n := Walk(key);
      ContentsStand();
      if m == null {
        Absent(nodes, Contents(), key);
      } else {
        StandsFor(nodes, Contents(), m);
      }
    }

    method Insert(key: string, parent: Node?<V>, c: nat, ghost n: nat) returns (m: Node<V>)
      requires Valid() && key !in Contents() && PathOf(hash(key), n) !in nodes && Hook(key, n, parent, c)
      modifies this`root, this`nodes, nodes.Values`child
      ensures Valid() && fresh(nodes.Values - old(nodes.Values))
      ensures m in nodes.Values && m.key == key && m.value == None
      ensures Contents() == old(Contents())[key := None] && key in Contents() && m.value == Contents()[key]
    {
      hide *;
      ContentsStand();
      ghost var was, before := nodes, Contents();
      NotAmong(was, before, key);
      m := Add(key, parent, c, n);
      Grown(was, before, PathOf(hash(key), n), m);
    }

    lemma NotAmong(was: map<seq<nat>, Node<V>>, before: map<string, Option<V>>, key: string)
      requires Stands(was, before) && key !in before
      ensures forall p :: p in was ==> was[p].key != key
    {
    }

    // Finds the key, or adds it without a value if there is memory for it; nothing else changes.
    method Upsert(key: string, memory: bool) returns (m: Node?<V>)
      requires Valid()
      modifies this, nodes.Values`child
      ensures Valid() && fresh(nodes.Values - old(nodes.Values))
      ensures m == null <==> !memory && key !in old(Contents())
      ensures m != null ==> m in nodes.Values && m.key == key
      ensures m != null ==> key in Contents() && m.value == Contents()[key]
      ensures Contents() == if m == null || key in old(Contents()) then old(Contents()) else old(Contents())[key := None]
    {
      hide *;
      var parent, c;
      ghost var n;
      m, parent, c, n := Find(key);
      if m == null && memory {
        m := Insert(key, parent, c, n);
      }
    }

    method SetValue(m: Node<V>, value: V)
      requires Valid() && m in nodes.Values
      modifies m`value
      ensures Valid() && Contents() == old(Contents())[m.key := Some(value)] && m.value == Some(value)
    {
      hide Valid, Contents;
      ghost var before := Contents();
      ContentsStand();
      OneKeyEach();
      m.value := Some(value);
      assert Stands(nodes, before[m.key := m.value]);
      ContentsStand();
      SameMap(nodes, before[m.key := m.value], Contents());
    }

    /** Binds a key, for which there always is memory. */
    method Bind(key: string, value: V)
      requires Valid()
      modifies this, nodes.Values
      ensures Valid() && fresh(nodes.Values - old(nodes.Values))
      ensures Contents() == old(Contents())[key := Some(value)]
    {
      hide *;
      var m := Upsert(key, true);
      SetValue(m, value);
    }

    /** Looks a key up without making a node for it. */
    method Lookup(key: string) returns (found: bool, value: Option<V>)
      requires Valid()
      ensures found <==> key in Contents()
      ensures found ==> value == Contents()[key]
    {
      hide *;
      var m, parent, c;
      ghost var n;
      m, parent, c, n := Find(key);
      if m == null {
        return false, None;
      }
      return true, m.value;
    }
  }
}
