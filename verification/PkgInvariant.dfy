/** Every step of the traversal keeps what is known of its states. */
module PkgInvariant {
  import opened Common
  import opened PkgGraph

  lemma NamesSplit(specs: seq<PkgSpec>, y: string)
    requires specs != []
    ensures Names(specs, y) <==> y == specs[0].name || Names(specs[1..], y)
  {
    assert specs == [specs[0]] + specs[1..];
    assert specs[0] in specs;
  }

  // ----- Starting -----

  lemma StartKeeps(repo: Repo, named: seq<PkgSpec>)
    ensures Invariant(repo, named, Start(named))
  {
    var st := Start(named);
    forall k, y | Waits(st.stack, k, y) ensures SoundFlags(repo, named, y, st.stack[k].flags) {
      NamedIsNeeded(repo, false, named, y);
      NamedIsNeeded(repo, true, named, y);
    }
    forall y | Names(named, y) ensures Cared(st, y, true, true) {
      assert Waits(st.stack, 0, y);
    }
  }

  // ----- Finishing a package -----

  lemma FinishWaits(st: State)
    requires st.stack != [] && Top(st).newpkg.Some?
    ensures |Finish(st).stack| == |st.stack|
    ensures forall k :: 0 <= k < |st.stack| ==> Finish(st).stack[k].flags == st.stack[k].flags
    ensures forall k, y :: Waits(Finish(st).stack, k, y) <==> Waits(st.stack, k, y)
    ensures forall k, x :: Loading(Finish(st).stack, k, x) <==> Loading(st.stack, k, x) && k != |st.stack| - 1
  {
  }

  lemma FinishSoundComplete(repo: Repo, named: seq<PkgSpec>, st: State)
    requires st.stack != [] && Top(st).newpkg.Some?
    requires Sound(repo, named, st) && Complete(repo, named, st)
    ensures Sound(repo, named, Finish(st)) && Complete(repo, named, Finish(st))
  {
    var st' := Finish(st);
    FinishWaits(st);
    hide Waits, Loading, SoundFlags, Requires, Names;
    forall y, d: bool, p: bool | Cared(st, y, d, p) ensures Cared(st', y, d, p) {
      if WaitsWith(st.stack, y, d, p) {
        var k :| Waits(st.stack, k, y) && (d ==> st.stack[k].flags.direct) && (p ==> st.stack[k].flags.public);
        InStack(st.stack, k, y);
        assert Waits(st'.stack, k, y);
      }
    }
    forall k, y | Waits(st'.stack, k, y) ensures SoundFlags(repo, named, y, st'.stack[k].flags) {
      InStack(st.stack, k, y);
    }
  }

  lemma InStack(stack: seq<Frame>, k: int, y: string)
    requires Waits(stack, k, y)
    ensures 0 <= k < |stack|
  {
  }

  lemma FinishListed(st: State)
    requires st.stack != [] && Top(st).newpkg.Some? && Listed(st)
    ensures Listed(Finish(st))
  {
    var st' := Finish(st);
    FinishWaits(st);
    var x := Top(st).newpkg.value;
    assert Loading(st.stack, |st.stack| - 1, x);
    hide Loading, Finish, Top;
    ListedParts(st, x, st');
  }

  lemma ListedParts(st: State, x: string, st': State)
    requires Listed(st) && Loading(st.stack, |st.stack| - 1, x)
    requires st'.order == [x] + st.order && st'.loaded == st.loaded
    requires forall k, y :: Loading(st'.stack, k, y) <==> Loading(st.stack, k, y) && k != |st.stack| - 1
    ensures Listed(st')
  {
    hide Loading;
    forall y | y in st'.loaded ensures y in st'.order || exists k :: Loading(st'.stack, k, y) {
      if y !in st.order {
        var k :| Loading(st.stack, k, y);
        if k == |st.stack| - 1 {
          SameLoading(st.stack, k, x, y);
        } else {
          assert Loading(st'.stack, k, y);
        }
      }
    }
  }

  lemma SameLoading(stack: seq<Frame>, k: int, x: string, y: string)
    requires Loading(stack, k, x) && Loading(stack, k, y)
    ensures x == y
  {
  }

  lemma FinishNested(repo: Repo, st: State)
    requires st.stack != [] && Top(st).newpkg.Some?
    requires DependencyOrder(repo, st.order) && Nested(repo, st)
    ensures DependencyOrder(repo, Finish(st).order) && Nested(repo, Finish(st))
  {
    hide DependencyOrder, Nested, Waits;
    FinishWaits(st);
    assert Loading(st.stack, |st.stack| - 1, Top(st).newpkg.value);
    FinishedOrder(repo, st, Top(st).newpkg.value);
    FinishedNesting(repo, st, Finish(st), Top(st).newpkg.value);
  }

  // What the finished package requires is behind it in the list, since no level is above its own.
  lemma FinishedOrder(repo: Repo, st: State, x: string)
    requires Loading(st.stack, |st.stack| - 1, x) && DependencyOrder(repo, st.order) && Nested(repo, st)
    ensures DependencyOrder(repo, [x] + st.order)
  {
    var order := [x] + st.order;
    InStackOnly(st.stack);
    hide Loading, Waits, Requires, Below;
    forall i, y | 0 <= i < |order| && Requires(repo, false, order[i], y) ensures Behind(order, i, y) {
      assert order[1..] == st.order;
      if i > 0 {
        assert Behind(st.order, i - 1, y);
        assert order[i + 1..] == st.order[i..];
      } else {
        assert y in st.order || Above(st.stack, |st.stack| - 1, y);
      }
    }
  }

  lemma FinishedNesting(repo: Repo, st: State, st': State, x: string)
    requires Loading(st.stack, |st.stack| - 1, x) && Nested(repo, st)
    requires st'.order == [x] + st.order && |st'.stack| == |st.stack|
    requires forall k, y :: Waits(st'.stack, k, y) <==> Waits(st.stack, k, y)
    requires forall k, y :: Loading(st'.stack, k, y) <==> Loading(st.stack, k, y) && k != |st.stack| - 1
    ensures Nested(repo, st')
  {
    hide Loading, Waits, Requires, Below;
    forall k, z, y | Loading(st'.stack, k, z) && Requires(repo, false, z, y)
      ensures y in st'.order || Above(st'.stack, k, y)
    {
      if Above(st.stack, k, y) {
        var j :| k < j && (Waits(st.stack, j, y) || Loading(st.stack, j, y));
        if Loading(st.stack, j, y) && j == |st.stack| - 1 {
          SameLoading(st.stack, j, x, y);
        } else {
          assert Waits(st'.stack, j, y) || Loading(st'.stack, j, y);
        }
      }
    }
  }

  lemma InStackOnly(stack: seq<Frame>)
    ensures forall k, y :: Waits(stack, k, y) ==> 0 <= k < |stack|
    ensures forall k, y :: Loading(stack, k, y) ==> 0 <= k < |stack|
  {
  }

  lemma FinishKeeps(repo: Repo, named: seq<PkgSpec>, st: State)
    requires st.stack != [] && Top(st).newpkg.Some? && Invariant(repo, named, st)
    ensures Invariant(repo, named, Finish(st))
  {
    hide Sound, Complete, Listed, DependencyOrder, Nested, Finish, Acyclic;
    FinishSoundComplete(repo, named, st);
    FinishListed(st);
    if Acyclic(repo) {
      FinishNested(repo, st);
    }
  }

  // ----- Leaving a level -----

  lemma PopWaits(st: State)
    requires st.stack != [] && Top(st).newpkg == None && Top(st).specs == []
    ensures |Pop(st).stack| == |st.stack| - 1
    ensures forall k :: 0 <= k < |st.stack| - 1 ==> Pop(st).stack[k] == st.stack[k]
    ensures forall k, y :: Waits(Pop(st).stack, k, y) <==> Waits(st.stack, k, y)
    ensures forall k, x :: Loading(Pop(st).stack, k, x) <==> Loading(st.stack, k, x)
  {
  }

  lemma PopCared(st: State, y: string, d: bool, p: bool)
    requires st.stack != [] && Top(st).newpkg == None && Top(st).specs == []
    requires Cared(st, y, d, p)
    ensures Cared(Pop(st), y, d, p)
  {
    PopWaits(st);
    InStackOnly(Pop(st).stack);
    hide Waits, Loading;
    if WaitsWith(st.stack, y, d, p) {
      var k :| Waits(st.stack, k, y) && (d ==> st.stack[k].flags.direct) && (p ==> st.stack[k].flags.public);
      assert Waits(Pop(st).stack, k, y);
    }
  }

  lemma PopSoundComplete(repo: Repo, named: seq<PkgSpec>, st: State)
    requires st.stack != [] && Top(st).newpkg == None && Top(st).specs == []
    requires Sound(repo, named, st) && Complete(repo, named, st)
    ensures Sound(repo, named, Pop(st)) && Complete(repo, named, Pop(st))
  {
    PopWaits(st);
    InStackOnly(Pop(st).stack);
    hide Waits, Loading, SoundFlags, Requires, Names, Cared;
    forall y, d: bool, p: bool | Cared(st, y, d, p) ensures Cared(Pop(st), y, d, p) {
      PopCared(st, y, d, p);
    }
  }

  lemma PopListed(st: State)
    requires st.stack != [] && Top(st).newpkg == None && Top(st).specs == [] && Listed(st)
    ensures Listed(Pop(st))
  {
    PopWaits(st);
    hide Waits, Loading;
  }

  lemma PopNested(repo: Repo, st: State)
    requires st.stack != [] && Top(st).newpkg == None && Top(st).specs == [] && Nested(repo, st)
    ensures Nested(repo, Pop(st))
  {
    PopWaits(st);
    hide Waits, Loading, Requires, Below;
    forall k, y | Above(st.stack, k, y) ensures Above(Pop(st).stack, k, y) {
      var j :| k < j && (Waits(st.stack, j, y) || Loading(st.stack, j, y));
      assert Waits(Pop(st).stack, j, y) || Loading(Pop(st).stack, j, y);
    }
  }

  lemma PopKeeps(repo: Repo, named: seq<PkgSpec>, st: State)
    requires st.stack != [] && Top(st).newpkg == None && Top(st).specs == [] && Invariant(repo, named, st)
    ensures Invariant(repo, named, Pop(st))
  {
    hide Sound, Complete, Listed, DependencyOrder, Nested, Pop, Acyclic;
    PopSoundComplete(repo, named, st);
    PopListed(st);
    PopOrder(st);
    if Acyclic(repo) {
      PopNested(repo, st);
    }
  }

  lemma PopOrder(st: State)
    requires st.stack != []
    ensures Pop(st).order == st.order
  {
  }

  // ----- Taking the next specification -----

  lemma TakeWaits(st: State, newpkg: Option<string>, pushed: seq<Frame>)
    requires st.stack != [] && Top(st).specs != [] && Top(st).newpkg == None
    requires forall i :: 0 <= i < |pushed| ==> pushed[i].newpkg == None
    ensures var n, stack' := |st.stack|, Take(st, newpkg, pushed).stack;
            && |stack'| == n + |pushed|
            && (forall k :: 0 <= k < n ==> stack'[k].flags == st.stack[k].flags)
            && (forall k :: n <= k < |stack'| ==> stack'[k] == pushed[k - n])
            && (forall k, y :: Waits(st.stack, k, y) ==> Waits(stack', k, y) || (k == n - 1 && y == Top(st).specs[0].name))
            && (forall k, y :: Waits(stack', k, y) && k < n ==> Waits(st.stack, k, y))
            && (forall k, x :: Loading(stack', k, x) <==> Loading(st.stack, k, x) || (k == n - 1 && newpkg == Some(x)))
    ensures Waits(st.stack, |st.stack| - 1, Top(st).specs[0].name)
  {
    var y0 := Top(st).specs[0].name;
    var n, stack' := |st.stack|, Take(st, newpkg, pushed).stack;
    forall y ensures Names(Top(st).specs, y) <==> y == y0 || Names(Top(st).specs[1..], y) {
      NamesSplit(Top(st).specs, y);
    }
    assert forall k :: 0 <= k < n - 1 ==> stack'[k] == st.stack[k];
    assert stack'[n - 1].specs == Top(st).specs[1..];
  }

  // Every name in the pushed levels is required by the package taken, publicly if the level is public.
  ghost predicate PushedBy(repo: Repo, y: string, pushed: seq<Frame>, public: bool) {
    forall i, z :: 0 <= i < |pushed| && Names(pushed[i].specs, z) ==>
                     && Requires(repo, false, y, z) && !pushed[i].flags.direct
                     && (pushed[i].flags.public ==> public && Requires(repo, true, y, z))
  }

  lemma TakeSound(repo: Repo, named: seq<PkgSpec>, st: State, newpkg: Option<string>, pushed: seq<Frame>)
    requires st.stack != [] && Top(st).specs != [] && Top(st).newpkg == None && Sound(repo, named, st)
    requires forall i :: 0 <= i < |pushed| ==> pushed[i].newpkg == None
    requires var y := Top(st).specs[0].name; y in repo && PushedBy(repo, y, pushed, Top(st).flags.public)
    ensures Sound(repo, named, Take(st, newpkg, pushed))
  {
    var n, st' := |st.stack|, Take(st, newpkg, pushed);
    var y0 := Top(st).specs[0].name;
    TakeWaits(st, newpkg, pushed);
    TakeFlags(st, newpkg, pushed);
    InStackOnly(st'.stack);
    WaitsNames(st'.stack);
    hide Waits, Names, Requires, Needed, PushedBy, SoundFlags, Take, Top;
    assert SoundFlags(repo, named, y0, st.stack[n - 1].flags);
    forall k, y | Waits(st'.stack, k, y) ensures SoundFlags(repo, named, y, st'.stack[k].flags) {
      if k >= n {
        assert st'.stack[k] == pushed[k - n];
        PushedSound(repo, named, y0, Top(st).flags, pushed, k - n, y);
      } else {
        assert Waits(st.stack, k, y);
      }
    }
    JoinedSound(repo, named, y0, OldFlags(st, y0), Top(st).flags);
  }

  lemma PushedSound(repo: Repo, named: seq<PkgSpec>, y0: string, f: Flags, pushed: seq<Frame>, i: nat, y: string)
    requires PushedBy(repo, y0, pushed, f.public) && SoundFlags(repo, named, y0, f)
    requires i < |pushed| && Names(pushed[i].specs, y)
    ensures SoundFlags(repo, named, y, pushed[i].flags)
  {
    hide Names, Requires, Needed;
    NeededThen(repo, false, named, y0, y);
    if pushed[i].flags.public {
      NeededThen(repo, true, named, y0, y);
    }
  }

  lemma JoinedSound(repo: Repo, named: seq<PkgSpec>, y: string, f: Flags, g: Flags)
    requires SoundFlags(repo, named, y, g) && (f == Flags(false, false) || SoundFlags(repo, named, y, f))
    ensures SoundFlags(repo, named, y, Joined(f, g))
  {
  }

  lemma WaitsNames(stack: seq<Frame>)
    ensures forall k, y :: Waits(stack, k, y) <==> 0 <= k < |stack| && Names(stack[k].specs, y)
  {
  }

  // What is required of the package taken waits in the pushed levels if the package is new, and
  // publicly if it is newly public.
  ghost predicate PushedAll(repo: Repo, y: string, pushed: seq<Frame>, public: bool) {
    forall z :: Requires(repo, public, y, z) ==>
                  exists i :: 0 <= i < |pushed| && Names(pushed[i].specs, z) && (public ==> pushed[i].flags.public)
  }

  lemma StillCared(st: State, newpkg: Option<string>, pushed: seq<Frame>, y: string, d: bool, p: bool)
    requires st.stack != [] && Top(st).specs != [] && Top(st).newpkg == None
    requires forall i :: 0 <= i < |pushed| ==> pushed[i].newpkg == None
    requires Cared(st, y, d, p)
    ensures Cared(Take(st, newpkg, pushed), y, d, p)
  {
    TakeWaits(st, newpkg, pushed);
    InStackOnly(st.stack);
    hide Waits, Names;
    var n, st' := |st.stack|, Take(st, newpkg, pushed);
    if WaitsWith(st.stack, y, d, p) {
      var k :| Waits(st.stack, k, y) && (d ==> st.stack[k].flags.direct) && (p ==> st.stack[k].flags.public);
      assert Waits(st'.stack, k, y) || (k == n - 1 && y == Top(st).specs[0].name);
    }
  }

  lemma NowWaits(st: State, newpkg: Option<string>, pushed: seq<Frame>, y: string, z: string, repo: Repo, p: bool)
    requires st.stack != [] && Top(st).specs != [] && Top(st).newpkg == None
    requires forall i :: 0 <= i < |pushed| ==> pushed[i].newpkg == None
    requires PushedAll(repo, y, pushed, p) && Requires(repo, p, y, z)
    ensures Cared(Take(st, newpkg, pushed), z, false, p)
  {
    TakeWaits(st, newpkg, pushed);
    var st' := Take(st, newpkg, pushed);
    WaitsNames(st'.stack);
    hide Waits, Names;
    var i :| 0 <= i < |pushed| && Names(pushed[i].specs, z) && (p ==> pushed[i].flags.public);
    assert Waits(st'.stack, |st.stack| + i, z);
  }

  lemma TakeComplete(repo: Repo, named: seq<PkgSpec>, st: State, newpkg: Option<string>, pushed: seq<Frame>)
    requires st.stack != [] && Top(st).specs != [] && Top(st).newpkg == None && Complete(repo, named, st)
    requires forall i :: 0 <= i < |pushed| ==> pushed[i].newpkg == None && !pushed[i].flags.direct
    requires var y := Top(st).specs[0].name;
             && (y !in st.loaded ==> PushedAll(repo, y, pushed, false))
             && (Top(st).flags.public && !OldFlags(st, y).public ==> PushedAll(repo, y, pushed, true))
    ensures Complete(repo, named, Take(st, newpkg, pushed))
  {
    var st' := Take(st, newpkg, pushed);
    var y0 := Top(st).specs[0].name;
    TakeFlags(st, newpkg, pushed);
    hide Cared, Requires, Names, PushedAll, Take;
    forall x, y | x in st'.loaded && Requires(repo, false, x, y) ensures Cared(st', y, false, false) {
      if x in st.loaded {
        StillCared(st, newpkg, pushed, y, false, false);
      } else {
        NowWaits(st, newpkg, pushed, x, y, repo, false);
      }
    }
    forall x, y | x in st'.loaded && st'.loaded[x].public && Requires(repo, true, x, y) ensures Cared(st', y, false, true) {
      if x in st.loaded && st.loaded[x].public {
        StillCared(st, newpkg, pushed, y, false, true);
      } else {
        NowWaits(st, newpkg, pushed, x, y, repo, true);
      }
    }
    forall y | Names(named, y) ensures Cared(st', y, true, true) {
      StillCared(st, newpkg, pushed, y, true, true);
    }
  }

  lemma TakeFlags(st: State, newpkg: Option<string>, pushed: seq<Frame>)
    requires st.stack != [] && Top(st).specs != []
    ensures var y, st' := Top(st).specs[0].name, Take(st, newpkg, pushed);
            && st'.loaded.Keys == st.loaded.Keys + {y} && st'.order == st.order
            && st'.loaded[y] == Joined(OldFlags(st, y), Top(st).flags)
            && (forall x :: x in st.loaded && x != y ==> st'.loaded[x] == st.loaded[x])
            && |st'.stack| == |st.stack| + |pushed|
            && (forall k :: 0 <= k < |st.stack| ==> st'.stack[k].flags == st.stack[k].flags)
            && (forall k :: |st.stack| <= k < |st'.stack| ==> st'.stack[k] == pushed[k - |st.stack|])
  {
  }

  // A package already loaded, or a new one that is loaded at the top from now on.
  ghost predicate LoadsNew(st: State, newpkg: Option<string>)
    requires st.stack != [] && Top(st).specs != []
  {
    if Top(st).specs[0].name in st.loaded then newpkg == None else newpkg == Some(Top(st).specs[0].name)
  }

  lemma TakeListed(st: State, newpkg: Option<string>, pushed: seq<Frame>)
    requires st.stack != [] && Top(st).specs != [] && Top(st).newpkg == None && Listed(st)
    requires forall i :: 0 <= i < |pushed| ==> pushed[i].newpkg == None
    requires LoadsNew(st, newpkg)
    ensures Listed(Take(st, newpkg, pushed))
  {
    var n, st' := |st.stack|, Take(st, newpkg, pushed);
    TakeWaits(st, newpkg, pushed);
    TakeFlags(st, newpkg, pushed);
    NotLoadingAtTop(st);
    hide Waits, Loading, Take, Names;
    forall x | x in st'.loaded ensures x in st'.order || exists k :: Loading(st'.stack, k, x) {
      if x in st.loaded {
        if x !in st.order {
          var k :| Loading(st.stack, k, x);
          assert Loading(st'.stack, k, x);
        }
      } else {
        assert Loading(st'.stack, n - 1, x);
      }
    }
  }

  lemma NotLoadingAtTop(st: State)
    requires st.stack != [] && Top(st).newpkg == None
    ensures forall k, x :: Loading(st.stack, k, x) ==> k < |st.stack| - 1
  {
  }

  lemma TakeNested(repo: Repo, st: State, newpkg: Option<string>, pushed: seq<Frame>)
    requires st.stack != [] && Top(st).specs != [] && Top(st).newpkg == None
    requires Acyclic(repo) && Nested(repo, st) && Listed(st)
    requires forall i :: 0 <= i < |pushed| ==> pushed[i].newpkg == None
    requires LoadsNew(st, newpkg)
    requires var y := Top(st).specs[0].name;
             && PushedBy(repo, y, pushed, Top(st).flags.public)
             && (y !in st.loaded ==> PushedAll(repo, y, pushed, false))
    ensures Nested(repo, Take(st, newpkg, pushed))
  {
    hide *;
    TakeRequires(repo, st, newpkg, pushed);
    TakeBelow(repo, st, newpkg, pushed);
    IsNested(repo, Take(st, newpkg, pushed));
  }

  ghost predicate RequiredAbove(repo: Repo, st: State) {
    forall k, x, y :: Loading(st.stack, k, x) && Requires(repo, false, x, y) ==> y in st.order || Above(st.stack, k, y)
  }

  ghost predicate AboveIsBelow(repo: Repo, st: State) {
    forall j, k, x, y :: Loading(st.stack, j, x) && j < k && (Waits(st.stack, k, y) || Loading(st.stack, k, y)) ==> Below(repo, x, y)
  }

  lemma IsNested(repo: Repo, st: State)
    requires RequiredAbove(repo, st) && AboveIsBelow(repo, st)
    ensures Nested(repo, st)
  {
  }

  // The package taken is finished, or it is being loaded above any package that requires it.
  lemma TakenAbove(repo: Repo, st: State, k: nat, x: string)
    requires st.stack != [] && Top(st).specs != [] && Acyclic(repo) && Nested(repo, st) && Listed(st)
    requires Loading(st.stack, k, x) && Requires(repo, false, x, Top(st).specs[0].name)
    requires Top(st).specs[0].name in st.loaded
    ensures Top(st).specs[0].name in st.order || exists j :: k < j && Loading(st.stack, j, Top(st).specs[0].name)
  {
    var y := Top(st).specs[0].name;
    hide Waits, Loading, Requires, Below, Top;
    if y !in st.order {
      var j :| Loading(st.stack, j, y);
      RequiredIsBelow(repo, x, y);
      if j < k {
        assert Below(repo, y, x);
        BelowThen(repo, y, x, y);
      } else if j == k {
        SameLoading(st.stack, k, x, y);
      }
    }
  }

  lemma TakeRequires(repo: Repo, st: State, newpkg: Option<string>, pushed: seq<Frame>)
    requires st.stack != [] && Top(st).specs != [] && Top(st).newpkg == None
    requires Acyclic(repo) && Nested(repo, st) && Listed(st)
    requires forall i :: 0 <= i < |pushed| ==> pushed[i].newpkg == None
    requires LoadsNew(st, newpkg)
    requires Top(st).specs[0].name !in st.loaded ==> PushedAll(repo, Top(st).specs[0].name, pushed, false)
    ensures RequiredAbove(repo, Take(st, newpkg, pushed))
  {
    var n, st' := |st.stack|, Take(st, newpkg, pushed);
    var y0 := Top(st).specs[0].name;
    TakeWaits(st, newpkg, pushed);
    TakeFlags(st, newpkg, pushed);
    InStackOnly(st.stack);
    NotLoadingAtTop(st);
    hide Waits, Loading, Take, Names, Requires, Below, PushedAll, Top, Listed;
    forall k, x, y | Loading(st'.stack, k, x) && Requires(repo, false, x, y)
      ensures y in st'.order || Above(st'.stack, k, y)
    {
      if Loading(st.stack, k, x) {
        if y !in st.order {
          var j :| k < j && (Waits(st.stack, j, y) || Loading(st.stack, j, y));
          if Loading(st.stack, j, y) {
            assert Loading(st'.stack, j, y);
          } else if !Waits(st'.stack, j, y) {
            assert j == n - 1 && y == y0;
            if y0 in st.loaded {
              TakenAbove(repo, st, k, x);
              var i :| k < i && Loading(st.stack, i, y0);
              assert Loading(st'.stack, i, y0);
            } else {
              assert Loading(st'.stack, n - 1, y0);
            }
          }
        }
      } else {
        PushedWaits(repo, st, newpkg, pushed, x, y);
      }
    }
  }

  lemma PushedWaits(repo: Repo, st: State, newpkg: Option<string>, pushed: seq<Frame>, x: string, y: string)
    requires st.stack != [] && Top(st).specs != [] && PushedAll(repo, x, pushed, false) && Requires(repo, false, x, y)
    ensures Above(Take(st, newpkg, pushed).stack, |st.stack| - 1, y)
  {
    var i :| 0 <= i < |pushed| && Names(pushed[i].specs, y);
    assert Waits(Take(st, newpkg, pushed).stack, |st.stack| + i, y);
  }

  lemma TakeBelow(repo: Repo, st: State, newpkg: Option<string>, pushed: seq<Frame>)
    requires st.stack != [] && Top(st).specs != [] && Top(st).newpkg == None && Nested(repo, st)
    requires forall i :: 0 <= i < |pushed| ==> pushed[i].newpkg == None
    requires LoadsNew(st, newpkg)
    requires PushedBy(repo, Top(st).specs[0].name, pushed, Top(st).flags.public)
    ensures AboveIsBelow(repo, Take(st, newpkg, pushed))
  {
    var n, st' := |st.stack|, Take(st, newpkg, pushed);
    var y0 := Top(st).specs[0].name;
    TakeWaits(st, newpkg, pushed);
    TakeFlags(st, newpkg, pushed);
    InStackOnly(st.stack);
    InStackOnly(st'.stack);
    WaitsNames(st'.stack);
    NotLoadingAtTop(st);
    hide Waits, Loading, Take, Names, Requires, Below, Top, Nested, PushedBy;
    OldBelow(repo, st);
    forall j, k, x, y | Loading(st'.stack, j, x) && j < k && (Waits(st'.stack, k, y) || Loading(st'.stack, k, y))
      ensures Below(repo, x, y)
    {
      if k >= n {
        assert st'.stack[k] == pushed[k - n];
        PushedRequired(repo, y0, pushed, Top(st).flags.public, k - n, y);
        if Loading(st.stack, j, x) {
          assert Waits(st.stack, n - 1, y0);
          BelowThen(repo, x, y0, y);
        } else {
          RequiredIsBelow(repo, x, y);
        }
      } else {
        assert Loading(st.stack, j, x);
      }
    }
  }

  lemma OldBelow(repo: Repo, st: State)
    requires Nested(repo, st)
    ensures AboveIsBelow(repo, st)
  {
  }

  lemma PushedRequired(repo: Repo, y0: string, pushed: seq<Frame>, public: bool, i: nat, y: string)
    requires PushedBy(repo, y0, pushed, public) && i < |pushed| && Names(pushed[i].specs, y)
    ensures Requires(repo, false, y0, y)
  {
  }

  // One step of any kind keeps the invariant.
  lemma TakeKeeps(repo: Repo, named: seq<PkgSpec>, st: State, newpkg: Option<string>, pushed: seq<Frame>)
    requires st.stack != [] && Top(st).specs != [] && Top(st).newpkg == None && Invariant(repo, named, st)
    requires forall i :: 0 <= i < |pushed| ==> pushed[i].newpkg == None && !pushed[i].flags.direct
    requires LoadsNew(st, newpkg)
    requires var y := Top(st).specs[0].name;
             && y in repo && PushedBy(repo, y, pushed, Top(st).flags.public)
             && (y !in st.loaded ==> PushedAll(repo, y, pushed, false))
             && (Top(st).flags.public && !OldFlags(st, y).public ==> PushedAll(repo, y, pushed, true))
    ensures Invariant(repo, named, Take(st, newpkg, pushed))
  {
    hide Sound, Complete, Listed, DependencyOrder, Nested, Take, Acyclic, PushedBy, PushedAll, LoadsNew;
    TakeSound(repo, named, st, newpkg, pushed);
    TakeComplete(repo, named, st, newpkg, pushed);
    TakeListed(st, newpkg, pushed);
    TakeFlags(st, newpkg, pushed);
    if Acyclic(repo) {
      TakeNested(repo, st, newpkg, pushed);
    }
  }

  lemma SkipKeeps(repo: Repo, named: seq<PkgSpec>, st: State)
    requires st.stack != [] && Top(st).specs != [] && Top(st).newpkg == None && Invariant(repo, named, st)
    requires var y := Top(st).specs[0].name; y in st.loaded && (Top(st).flags.public ==> st.loaded[y].public)
    ensures Invariant(repo, named, Skip(st))
  {
    hide Complete, Listed, DependencyOrder, Nested, Take, Acyclic, SoundFlags;
    TakeKeeps(repo, named, st, None, []);
  }

  lemma UpgradeKeeps(repo: Repo, named: seq<PkgSpec>, st: State)
    requires st.stack != [] && Top(st).specs != [] && Top(st).newpkg == None && Invariant(repo, named, st)
    requires var y := Top(st).specs[0].name; y in st.loaded && Top(st).flags.public && !st.loaded[y].public && y in repo
    ensures Invariant(repo, named, Upgrade(st, repo[Top(st).specs[0].name]))
  {
    hide Sound, Complete, Listed, DependencyOrder, Nested, Take, Acyclic, Names;
    var y := Top(st).specs[0].name;
    var pushed := [Frame(repo[y].requires', None, Flags(false, Top(st).flags.public))];
    forall z | Requires(repo, true, y, z)
      ensures exists i :: 0 <= i < |pushed| && Names(pushed[i].specs, z) && pushed[i].flags.public
    {
      assert Names(pushed[0].specs, z);
    }
    TakeKeeps(repo, named, st, None, pushed);
  }

  lemma LoadKeeps(repo: Repo, named: seq<PkgSpec>, st: State)
    requires st.stack != [] && Top(st).specs != [] && Top(st).newpkg == None && Invariant(repo, named, st)
    requires var y := Top(st).specs[0].name; y !in st.loaded && y in repo
    ensures Invariant(repo, named, Load(st, repo[Top(st).specs[0].name]))
  {
    hide Sound, Complete, Listed, DependencyOrder, Nested, Take, Acyclic, Names;
    var y := Top(st).specs[0].name;
    var pushed := [Frame(repo[y].requires', None, Flags(false, Top(st).flags.public)),
                   Frame(repo[y].requiresPrivate, None, Flags(false, false))];
    forall p: bool, z | Requires(repo, p, y, z) && (p ==> Top(st).flags.public)
      ensures exists i :: 0 <= i < |pushed| && Names(pushed[i].specs, z) && (p ==> pushed[i].flags.public)
    {
      assert Names(pushed[0].specs, z) || Names(pushed[1].specs, z);
    }
    TakeKeeps(repo, named, st, Some(y), pushed);
  }

  // ----- At the end -----

  /** With nothing left on the stack: exactly the packages needed are loaded and each is in the list
      once, public exactly if needed publicly and direct exactly if named; and without cycles every
      package stands before all it requires. */
  lemma DoneMeans(repo: Repo, named: seq<PkgSpec>, st: State)
    requires st.stack == [] && Invariant(repo, named, st)
    ensures forall x :: x in st.loaded <==> Needed(repo, false, named, x)
    ensures forall x :: x in st.loaded ==> (st.loaded[x].public <==> Needed(repo, true, named, x))
    ensures forall x :: x in st.loaded ==> (st.loaded[x].direct <==> Names(named, x))
    ensures forall x :: x in st.order <==> x in st.loaded
    ensures forall i, j :: 0 <= i < j < |st.order| ==> st.order[i] != st.order[j]
    ensures Acyclic(repo) ==> DependencyOrder(repo, st.order)
  {
    hide Requires, Names, Needed, Acyclic, DependencyOrder, Nested, Cared, SoundFlags, Sound, Complete, Listed;
    NothingWaits(st);
    AllLoaded(repo, named, st);
    RightFlags(repo, named, st);
    AllListed(st);
  }

  lemma NothingWaits(st: State)
    requires st.stack == []
    ensures forall y, d: bool, p: bool :: Cared(st, y, d, p) ==>
              y in st.loaded && (d ==> st.loaded[y].direct) && (p ==> st.loaded[y].public)
    ensures forall k, x :: !Loading(st.stack, k, x)
  {
  }

  lemma AllListed(st: State)
    requires Listed(st) && forall k, x :: !Loading(st.stack, k, x)
    ensures forall x :: x in st.order <==> x in st.loaded
    ensures forall i, j :: 0 <= i < j < |st.order| ==> st.order[i] != st.order[j]
  {
    hide Loading;
  }

  ghost function Publics(st: State): set<string> {
    set x | x in st.loaded && st.loaded[x].public
  }

  lemma AllLoaded(repo: Repo, named: seq<PkgSpec>, st: State)
    requires Complete(repo, named, st)
    requires forall y, d: bool, p: bool :: Cared(st, y, d, p) ==>
               y in st.loaded && (d ==> st.loaded[y].direct) && (p ==> st.loaded[y].public)
    ensures forall x :: Needed(repo, false, named, x) ==> x in st.loaded
    ensures forall x :: Needed(repo, true, named, x) ==> x in st.loaded && st.loaded[x].public
    ensures forall x :: Names(named, x) ==> x in st.loaded && st.loaded[x].direct
  {
    hide Requires, Names, Needed, Cared;
    forall x, y | x in st.loaded.Keys && Requires(repo, false, x, y) ensures y in st.loaded.Keys {
      assert Cared(st, y, false, false);
    }
    forall x, y | x in Publics(st) && Requires(repo, true, x, y) ensures y in Publics(st) {
      assert Cared(st, y, false, true);
    }
    forall x | Names(named, x) ensures x in st.loaded && st.loaded[x].direct && x in Publics(st) {
      assert Cared(st, x, true, true);
    }
    forall x | Needed(repo, false, named, x) ensures x in st.loaded {
      ClosedHoldsNeeded(repo, false, named, st.loaded.Keys, x);
    }
    forall x | Needed(repo, true, named, x) ensures x in Publics(st) {
      ClosedHoldsNeeded(repo, true, named, Publics(st), x);
    }
  }

  lemma RightFlags(repo: Repo, named: seq<PkgSpec>, st: State)
    requires Sound(repo, named, st)
    ensures forall x :: x in st.loaded ==> Needed(repo, false, named, x)
    ensures forall x :: x in st.loaded && st.loaded[x].public ==> Needed(repo, true, named, x)
    ensures forall x :: x in st.loaded && st.loaded[x].direct ==> Names(named, x)
  {
    hide Needed, Names, Waits;
  }
}
