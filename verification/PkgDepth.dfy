/** How deep the stack of the traversal can get. */
module PkgDepth {
  import opened Common
  import opened PkgGraph
  import opened PkgInvariant

  // A chain of requirements from a named package to y.
  ghost predicate ChainTo(repo: Repo, named: seq<PkgSpec>, p: seq<string>, y: string) {
    Path(repo, false, p) && Names(named, p[0]) && p[|p| - 1] == y
  }

  ghost predicate Deep(repo: Repo, named: seq<PkgSpec>, n: nat, y: string) {
    exists p :: ChainTo(repo, named, p, y) && |p| >= n
  }

  // What waits on a level is that deep in the graph, and there are not more levels than the packages
  // loaded account for: two for each, and one more for each that is public.
  ghost predicate Shallow(repo: Repo, named: seq<PkgSpec>, st: State) {
    && (forall k, y :: Waits(st.stack, k, y) ==> Deep(repo, named, k / 2 + 1, y))
    && |st.stack| <= 1 + 2 * |st.loaded| + |Publics(st)|
  }

  lemma StartShallow(repo: Repo, named: seq<PkgSpec>)
    ensures Shallow(repo, named, Start(named))
  {
    var st := Start(named);
    forall k, y | Waits(st.stack, k, y) ensures Deep(repo, named, k / 2 + 1, y) {
      assert ChainTo(repo, named, [y], y);
    }
    assert Publics(st) == {};
  }

  lemma FinishShallow(repo: Repo, named: seq<PkgSpec>, st: State)
    requires st.stack != [] && Top(st).newpkg.Some? && Shallow(repo, named, st)
    ensures Shallow(repo, named, Finish(st))
  {
    hide Deep, Waits;
    FinishWaits(st);
    assert Publics(Finish(st)) == Publics(st);
  }

  lemma PopShallow(repo: Repo, named: seq<PkgSpec>, st: State)
    requires st.stack != [] && Shallow(repo, named, st)
    ensures Shallow(repo, named, Pop(st))
  {
    hide Deep;
    assert Publics(Pop(st)) == Publics(st);
    forall k, y | Waits(Pop(st).stack, k, y) ensures Waits(st.stack, k, y) {
    }
  }

  lemma Deeper(repo: Repo, named: seq<PkgSpec>, n: nat, y: string, z: string)
    requires Deep(repo, named, n, y) && Requires(repo, false, y, z)
    ensures Deep(repo, named, n + 1, z)
  {
    hide Requires;
    var p :| ChainTo(repo, named, p, y) && |p| >= n;
    PathThen(repo, false, p, y, z);
    assert ChainTo(repo, named, p + [z], z);
  }

  lemma LessDeep(repo: Repo, named: seq<PkgSpec>, n: nat, m: nat, y: string)
    requires Deep(repo, named, n, y) && m <= n
    ensures Deep(repo, named, m, y)
  {
    var p :| ChainTo(repo, named, p, y) && |p| >= n;
  }

  // The levels pushed for a package hold only what it requires.
  ghost predicate PushedFor(repo: Repo, y: string, pushed: seq<Frame>) {
    |pushed| <= 2 && forall i, z :: 0 <= i < |pushed| && Names(pushed[i].specs, z) ==> Requires(repo, false, y, z)
  }

  lemma TakeDeep(repo: Repo, named: seq<PkgSpec>, st: State, newpkg: Option<string>, pushed: seq<Frame>, k: int, z: string)
    requires st.stack != [] && Top(st).specs != [] && Shallow(repo, named, st)
    requires PushedFor(repo, Top(st).specs[0].name, pushed) && Waits(Take(st, newpkg, pushed).stack, k, z)
    ensures Deep(repo, named, k / 2 + 1, z)
  {
    hide Deep, Requires;
    var y, n := Top(st).specs[0].name, |st.stack|;
    NamesSplit(Top(st).specs, z);
    NamesSplit(Top(st).specs, y);
    assert Waits(st.stack, n - 1, y);
    if k < n {
      assert Waits(st.stack, k, z);
    } else {
      assert Take(st, newpkg, pushed).stack[k] == pushed[k - n];
      Deeper(repo, named, (n - 1) / 2 + 1, y, z);
      LessDeep(repo, named, (n - 1) / 2 + 2, k / 2 + 1, z);
    }
  }

  lemma TakeShallow(repo: Repo, named: seq<PkgSpec>, st: State, newpkg: Option<string>, pushed: seq<Frame>)
    requires st.stack != [] && Top(st).specs != [] && Shallow(repo, named, st)
    requires var y := Top(st).specs[0].name;
             && PushedFor(repo, y, pushed)
             && |pushed| <= (if y in st.loaded then 0 else 2) + if Top(st).flags.public && !OldFlags(st, y).public then 1 else 0
    ensures Shallow(repo, named, Take(st, newpkg, pushed))
  {
    var st' := Take(st, newpkg, pushed);
    var y := Top(st).specs[0].name;
    forall k, z | Waits(st'.stack, k, z) ensures Deep(repo, named, k / 2 + 1, z) {
      TakeDeep(repo, named, st, newpkg, pushed, k, z);
    }
    PublicsGrow(st, newpkg, pushed);
    LoadedGrow(st.loaded, y, st'.loaded[y]);
  }

  lemma LoadedGrow(m: map<string, Flags>, y: string, f: Flags)
    ensures |m[y := f]| == |m| + if y in m then 0 else 1
  {
    assert m[y := f].Keys == m.Keys + {y};
    assert |m[y := f]| == |m[y := f].Keys| && |m| == |m.Keys|;
  }

  lemma PublicsGrow(st: State, newpkg: Option<string>, pushed: seq<Frame>)
    requires st.stack != [] && Top(st).specs != []
    ensures var y := Top(st).specs[0].name;
            |Publics(Take(st, newpkg, pushed))| ==
            |Publics(st)| + if Top(st).flags.public && !OldFlags(st, y).public then 1 else 0
  {
    var y, st' := Top(st).specs[0].name, Take(st, newpkg, pushed);
    if Top(st).flags.public && !OldFlags(st, y).public {
      assert Publics(st') == Publics(st) + {y};
      assert y !in Publics(st);
    } else {
      assert Publics(st') == Publics(st);
    }
  }

  lemma UpgradeShallow(repo: Repo, named: seq<PkgSpec>, st: State)
    requires st.stack != [] && Top(st).specs != [] && Shallow(repo, named, st)
    requires var y := Top(st).specs[0].name; y in st.loaded && Top(st).flags.public && !st.loaded[y].public && y in repo
    ensures Shallow(repo, named, Upgrade(st, repo[Top(st).specs[0].name]))
  {
    hide Shallow, Take, Names;
    var y := Top(st).specs[0].name;
    TakeShallow(repo, named, st, None, [Frame(repo[y].requires', None, Flags(false, Top(st).flags.public))]);
  }

  lemma LoadShallow(repo: Repo, named: seq<PkgSpec>, st: State)
    requires st.stack != [] && Top(st).specs != [] && Shallow(repo, named, st)
    requires var y := Top(st).specs[0].name; y !in st.loaded && y in repo
    ensures Shallow(repo, named, Load(st, repo[Top(st).specs[0].name]))
  {
    hide Shallow, Take, Names;
    var y := Top(st).specs[0].name;
    TakeShallow(repo, named, st, Some(y), [Frame(repo[y].requires', None, Flags(false, Top(st).flags.public)),
                                           Frame(repo[y].requiresPrivate, None, Flags(false, false))]);
  }

  /** A package is reported as too deep only with good reason: a chain of 128 requirements leads to it,
      and at least 85 packages are needed. */
  ghost predicate ReallyDeep(repo: Repo, named: seq<PkgSpec>, y: string) {
    && Deep(repo, named, 128, y)
    && exists s: set<string> :: |s| >= 85 && forall x :: x in s ==> x in repo && Needed(repo, false, named, x)
  }

  lemma FullStackIsDeep(repo: Repo, named: seq<PkgSpec>, st: State)
    requires Shallow(repo, named, st) && Sound(repo, named, st) && |st.stack| >= 255 && Top(st).specs != []
    ensures ReallyDeep(repo, named, Top(st).specs[0].name)
  {
    hide Deep, Needed;
    var y := Top(st).specs[0].name;
    NamesSplit(Top(st).specs, y);
    assert Waits(st.stack, |st.stack| - 1, y);
    LessDeep(repo, named, (|st.stack| - 1) / 2 + 1, 128, y);
    FewerPublic(st);
    var s := st.loaded.Keys;
    assert |s| == |st.loaded| >= 85;
  }

  lemma FewerPublic(st: State)
    ensures |Publics(st)| <= |st.loaded|
  {
    assert Publics(st) <= st.loaded.Keys;
    SubsetSize(Publics(st), st.loaded.Keys);
  }

  lemma {:induction false} SubsetSize(s: set<string>, t: set<string>)
    requires s <= t
    ensures |s| <= |t|
  {
    if s != {} {
      var x :| x in s;
      SubsetSize(s - {x}, t - {x});
    }
  }
}
