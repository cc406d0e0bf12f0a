/** The resolver: a depth-first traversal of the requirements with an explicit stack. */
module PkgResolve {
  import opened Common
  import opened VersionOrder
  import opened PkgGraph
  import opened PkgInvariant
  import opened PkgDepth
  import opened PkgAsked

  // A package: what was read for it, its flags, and the next package in the list.
  class Pkg {
    const realname: string
    var contents: Option<PkgInfo>
    var direct: bool
    var public: bool
    var list: Pkg?

    constructor (realname: string)
      ensures this.realname == realname && contents == None && !direct && !public && list == null
    {
      this.realname := realname;
      contents, direct, public, list := None, false, false, null;
    }
  }

  ghost function RealNames(chain: seq<Pkg>): (r: seq<string>)
    ensures |r| == |chain| && forall i :: 0 <= i < |r| ==> r[i] == chain[i].realname
  {
    seq(|chain|, i requires 0 <= i < |chain| => chain[i].realname)
  }

  ghost function At(chain: seq<Pkg>, i: nat): Pkg? {
    if i < |chain| then chain[i] else null
  }

  // The packages located so far, and the list of those finished.
  class Pkgs {
    var pkgs: map<string, Pkg>
    var head: Pkg?
    var count: nat
    ghost var chain: seq<Pkg>

    ghost predicate Holds(p: Pkg)
      reads this`pkgs
    {
      p.realname in pkgs && pkgs[p.realname] == p
    }

    ghost predicate Linked()
      reads this`head, this`chain, chain`list
    {
      && head == At(chain, 0)
      && (forall i :: 0 <= i < |chain| ==> chain[i].list == At(chain, i + 1))
      && (forall i, j :: 0 <= i < j < |chain| ==> chain[i] != chain[j])
    }

    ghost predicate Valid()
      reads this, pkgs.Values`list
    {
      && (forall x :: x in pkgs ==> pkgs[x].realname == x)
      && count == |pkgs|
      && (forall i :: 0 <= i < |chain| ==> Holds(chain[i]))
      && Linked()
      && (forall x :: x in pkgs && pkgs[x] !in chain ==> pkgs[x].list == null)
    }

    ghost function Flagged(): map<string, Flags>
      reads this`pkgs, pkgs.Values`direct, pkgs.Values`public
    {
      map x | x in pkgs :: Flags(pkgs[x].direct, pkgs[x].public)
    }

    constructor ()
      ensures Valid() && pkgs == map[] && chain == []
    {
      pkgs, head, count, chain := map[], null, 0, [];
    }

    method Locate(realname: string) returns (p: Pkg)
      requires Valid()
      modifies this`pkgs, this`count
      ensures Valid() && Holds(p) && p.realname == realname
      ensures realname in old(pkgs) ==> pkgs == old(pkgs)
      ensures realname !in old(pkgs) ==>
                && pkgs == old(pkgs)[realname := p]
                && fresh(p) && p.contents == None && !p.direct && !p.public && p.list == null && p !in chain
    {
      hide Linked;
      if realname in pkgs {
        return pkgs[realname];
      }
      p := new Pkg(realname);
      pkgs := pkgs[realname := p];
      count := count + 1;
    }

    method Prepend(p: Pkg)
      requires Valid() && Holds(p) && p !in chain
      modifies this`head, this`chain, p`list
      ensures Valid() && chain == [p] + old(chain)
    {
      ghost var was := chain;
      assert p.list == null by {
        assert pkgs[p.realname] == p;
      }
      p.list := head;
      head := p;
      chain := [p] + chain;
      assert Linked() by {
        assert forall i :: 0 <= i < |was| ==> was[i].list == old(was[i].list);
        LinkedBehind(p, was);
      }
    }

    lemma LinkedBehind(p: Pkg, was: seq<Pkg>)
      requires chain == [p] + was && head == p && p.list == At(was, 0) && p !in was
      requires forall i :: 0 <= i < |was| ==> was[i].list == At(was, i + 1)
      requires forall i, j :: 0 <= i < j < |was| ==> was[i] != was[j]
      ensures Linked()
    {
      assert forall i :: 0 < i < |chain| ==> chain[i] == was[i - 1] && At(chain, i) == At(was, i - 1);
    }

    lemma OnlyThis(p: Pkg)
      requires Valid() && Holds(p)
      ensures forall x :: x in pkgs && pkgs[x] == p ==> x == p.realname
    {
    }

    method Fill(p: Pkg, info: PkgInfo)
      requires Valid() && Holds(p)
      modifies p`contents
      ensures Valid() && p.contents == Some(info)
      ensures forall x :: x in pkgs && x != p.realname ==> pkgs[x].contents == old(pkgs[x].contents)
    {
      p.contents := Some(info);
    }

    method Mark(p: Pkg, flags: Flags)
      requires Valid() && Holds(p)
      modifies p`direct, p`public
      ensures Valid() && Flags(p.direct, p.public) == Joined(old(Flags(p.direct, p.public)), flags)
      ensures Flagged() == old(Flagged())[p.realname := Flags(p.direct, p.public)]
    {
      hide Linked, Valid;
      OnlyThis(p);
      p.direct, p.public := p.direct || flags.direct, p.public || flags.public;
    }

    // Whether the list holds as many packages as were located, which is to say all of them.
    method AllPresent() returns (present: bool)
      requires Valid()
      ensures present <==> forall x :: x in pkgs ==> x in RealNames(chain)
    {
      var n := 0;
      var p := head;
      while p != null
        invariant 0 <= n <= |chain|
        invariant p == At(chain, n)
        decreases |chain| - n
      {
        assert Holds(chain[n]);
        n := n + 1;
        p := p.list;
      }
      present := n == count;
      AsManyMeansAll(RealNames(chain), pkgs.Keys);
    }
  }

  lemma {:induction false} DistinctCount(s: seq<string>)
    requires forall i, j :: 0 <= i < j < |s| ==> s[i] != s[j]
    ensures |Elements(s)| == |s|
  {
    if s == [] {
      assert Elements(s) == {};
    } else {
      DistinctCount(s[1..]);
      assert s == [s[0]] + s[1..];
      assert Elements(s) == Elements(s[1..]) + {s[0]};
    }
  }

  lemma {:induction false} SubsetOfSameSize(a: set<string>, b: set<string>)
    requires a <= b && |a| == |b|
    ensures a == b
  {
    if b != {} {
      if x :| x in b && x !in a {
        assert a <= b - {x};
        SubsetSize(a, b - {x});
      }
    }
  }

  lemma AsManyMeansAll(s: seq<string>, keys: set<string>)
    requires forall i, j :: 0 <= i < j < |s| ==> s[i] != s[j]
    requires forall x :: x in s ==> x in keys
    ensures |s| == |keys| <==> forall x :: x in keys ==> x in s
  {
    DistinctCount(s);
    if |s| == |keys| {
      SubsetOfSameSize(Elements(s), keys);
      assert forall x :: x in keys ==> x in Elements(s);
    }
    if forall x :: x in keys ==> x in s {
      assert Elements(s) == keys;
    }
  }

  // One level of the stack.
  datatype ProcState = ProcState(specs: seq<PkgSpec>, newpkg: Pkg?, flags: Flags)

  // How a traversal ends.
  datatype Outcome = Resolved | NotFound(name: string) | WrongVersion(spec: PkgSpec) | TooDeep(name: string)

  ghost function FrameOf(s: ProcState): Frame {
    Frame(s.specs, if s.newpkg == null then None else Some(s.newpkg.realname), s.flags)
  }

  ghost function Frames(stack: array<ProcState>, top: int): (r: seq<Frame>)
    requires -1 <= top < stack.Length
    reads stack
    ensures |r| == top + 1 && forall k :: 0 <= k <= top ==> r[k] == FrameOf(stack[k])
  {
    seq(top + 1, k requires 0 <= k <= top reads stack => FrameOf(stack[k]))
  }

  // The state that the packages and the stack stand for.
  ghost function StateOf(t: Pkgs, stack: array<ProcState>, top: int): State
    requires -1 <= top < stack.Length
    reads t, t.pkgs.Values, stack
  {
    State(Frames(stack, top), t.Flagged(), RealNames(t.chain))
  }

  // The stack names packages that were located, and above its top nothing is being loaded.
  ghost predicate GoodStack(t: Pkgs, stack: array<ProcState>, top: int)
    reads t`pkgs, stack
  {
    && -1 <= top < stack.Length
    && (forall k :: 0 <= k <= top && stack[k].newpkg != null ==> t.Holds(stack[k].newpkg))
    && (forall k :: top < k < stack.Length ==> stack[k].newpkg == null)
  }

  // Every package located has been read from the repository.
  ghost predicate AllRead(repo: Repo, t: Pkgs)
    reads t`pkgs, t.pkgs.Values`contents
  {
    forall x :: x in t.pkgs ==> x in repo && t.pkgs[x].contents == Some(repo[x])
  }

  ghost function Settled(st: State): State
    requires st.stack != []
  {
    if Top(st).newpkg.Some? then Finish(st) else st
  }

  // A package being loaded that is at the top of the stack is put into the list.
  method Settle(repo: Repo, t: Pkgs, stack: array<ProcState>, top: int)
    requires t.Valid() && AllRead(repo, t) && GoodStack(t, stack, top) && top >= 0
    requires Listed(StateOf(t, stack, top))
    modifies t`head, t`chain, t.pkgs.Values, stack
    ensures t.Valid() && AllRead(repo, t) && GoodStack(t, stack, top) && stack[top].newpkg == null
    ensures StateOf(t, stack, top) == old(Settled(StateOf(t, stack, top)))
  {
    hide Pkgs.Valid, Pkgs.Linked, Pkgs.Flagged, AllRead, Listed;
    var p := stack[top].newpkg;
    if p != null {
      NotYetListed(t, stack, top, p);
      t.Prepend(p);
      stack[top] := stack[top].(newpkg := null);
      assert Frames(stack, top) == old(WithTop(Frames(stack, top), FrameOf(stack[top]).(newpkg := None)));
    }
  }

  lemma NotYetListed(t: Pkgs, stack: array<ProcState>, top: int, p: Pkg)
    requires -1 <= top < stack.Length && Listed(StateOf(t, stack, top))
    requires top >= 0 && stack[top].newpkg == p
    ensures p !in t.chain
  {
    var st := StateOf(t, stack, top);
    assert Loading(st.stack, top, p.realname);
    assert forall i :: 0 <= i < |t.chain| ==> st.order[i] == t.chain[i].realname;
    assert p.realname !in st.order;
  }

  // What one step does to the state: the next specification at the top is taken off, and its package
  // is loaded, or made public, or left as it is.
  ghost function Stepped(repo: Repo, recursive: bool, st: State): State
    requires st.stack != [] && Top(st).specs != []
  {
    var y := Top(st).specs[0].name;
    if y in st.loaded then
      if recursive && Top(st).flags.public && !st.loaded[y].public && y in repo then Upgrade(st, repo[y]) else Skip(st)
    else
      if recursive && y in repo then Load(st, repo[y]) else Take(st, Some(y), [])
  }

  ghost predicate OthersRead(repo: Repo, t: Pkgs, y: string)
    reads t`pkgs, t.pkgs.Values`contents
  {
    forall x :: x in t.pkgs && x != y ==> x in repo && t.pkgs[x].contents == Some(repo[x])
  }

  // A package that was loaded before: what it requires is looked at again if it becomes public.
  method Revisit(repo: Repo, recursive: bool, t: Pkgs, stack: array<ProcState>, top: int, p: Pkg, ghost before: State)
    returns (ok: bool, top': int)
    requires t.Valid() && AllRead(repo, t) && GoodStack(t, stack, top) && top >= 0
    requires stack[top].specs != [] && stack[top].newpkg == null
    requires t.Holds(p) && p.realname == stack[top].specs[0].name
    requires before == StateOf(t, stack, top) && Top(before).specs != []
    modifies stack, p`direct, p`public
    ensures ok ==> t.Valid() && AllRead(repo, t) && GoodStack(t, stack, top')
    ensures ok ==> StateOf(t, stack, top') == Stepped(repo, recursive, before)
    ensures !ok ==> top + 1 == stack.Length
  {
    hide Pkgs.Valid, Pkgs.Linked, AllRead, Pkgs.Flagged, Stepped, WithTop, RealNames, At, OldFlags, Frames, StateOf, FrameOf;
    StateParts(t, stack, top);
    ReadOf(repo, t, p);
    FlagsOf(t, p);
    TopFrame(t, stack, top);
    Revisited(repo, recursive, before);
    var flags := stack[top].flags;
    stack[top] := stack[top].(specs := stack[top].specs[1..]);
    ok, top' := true, top;
    if flags.public && !p.public {
      t.Mark(p, Flags(false, true));
      if recursive {
        if top >= stack.Length - 1 {
          return false, top;
        }
        top' := top + 1;
        stack[top'] := ProcState(p.contents.value.requires', stack[top'].newpkg, Flags(false, flags.public));
      }
    }
    t.Mark(p, flags);
    FrameParts();
    assert Frames(stack, top') == Stepped(repo, recursive, before).stack;
    StateParts(t, stack, top');
  }

  lemma StackHeight(t: Pkgs, stack: array<ProcState>, top: int)
    requires t.Valid() && GoodStack(t, stack, top) && top >= 0
    ensures |StateOf(t, stack, top).stack| == top + 1
  {
  }

  lemma StateParts(t: Pkgs, stack: array<ProcState>, top: int)
    requires -1 <= top < stack.Length
    ensures var st := StateOf(t, stack, top);
            st.stack == Frames(stack, top) && st.loaded == t.Flagged() && st.order == RealNames(t.chain)
  {
  }

  lemma TopIsIn(t: Pkgs, stack: array<ProcState>, top: int)
    requires GoodStack(t, stack, top)
    ensures -1 <= top < stack.Length
  {
  }

  lemma IsState(t: Pkgs, stack: array<ProcState>, top: int, st: State)
    requires -1 <= top < stack.Length
    requires Frames(stack, top) == st.stack && t.Flagged() == st.loaded && RealNames(t.chain) == st.order
    ensures StateOf(t, stack, top) == st
  {
  }

  lemma UpdateTwice(m: map<string, Flags>, y: string, f: Flags, g: Flags)
    ensures m[y := f][y := g] == m[y := g]
  {
  }

  lemma TopFrame(t: Pkgs, stack: array<ProcState>, top: int)
    requires 0 <= top < stack.Length
    ensures StateOf(t, stack, top).stack != [] && Top(StateOf(t, stack, top)) == FrameOf(stack[top])
    ensures FrameOf(stack[top]).specs == stack[top].specs && FrameOf(stack[top]).flags == stack[top].flags
    ensures FrameOf(stack[top]).newpkg == None <==> stack[top].newpkg == null
  {
  }

  lemma FrameParts()
    ensures forall specs, flags :: FrameOf(ProcState(specs, null, flags)) == Frame(specs, None, flags)
    ensures forall specs, p: Pkg, flags :: FrameOf(ProcState(specs, p, flags)) == Frame(specs, Some(p.realname), flags)
  {
  }

  lemma Revisited(repo: Repo, recursive: bool, st: State)
    requires st.stack != [] && Top(st).specs != [] && Top(st).newpkg == None
    requires Top(st).specs[0].name in st.loaded && Top(st).specs[0].name in repo
    ensures var y, f := Top(st).specs[0].name, Top(st);
            && Stepped(repo, recursive, st).loaded == st.loaded[y := Joined(st.loaded[y], f.flags)]
            && Stepped(repo, recursive, st).order == st.order
            && Stepped(repo, recursive, st).stack ==
               st.stack[..|st.stack| - 1] + [Frame(f.specs[1..], None, f.flags)]
               + (if recursive && f.flags.public && !st.loaded[y].public then
                    [Frame(repo[y].requires', None, Flags(false, f.flags.public))]
                  else [])
  {
  }

  lemma ReadOf(repo: Repo, t: Pkgs, p: Pkg)
    requires AllRead(repo, t) && t.Holds(p)
    ensures p.realname in repo && p.contents == Some(repo[p.realname])
  {
  }

  lemma FlaggedAll(t: Pkgs)
    ensures t.Flagged().Keys == t.pkgs.Keys
    ensures forall x :: x in t.pkgs ==> t.Flagged()[x] == Flags(t.pkgs[x].direct, t.pkgs[x].public)
  {
  }

  lemma FlagsOf(t: Pkgs, p: Pkg)
    requires t.Holds(p)
    ensures p.realname in t.Flagged() && t.Flagged()[p.realname] == Flags(p.direct, p.public)
  {
  }

  // What is wrong when the traversal fails.
  ghost predicate Justified(repo: Repo, ignoreVersions: bool, spec: PkgSpec, depth: int, outcome: Outcome) {
    match outcome
    case Resolved => spec.name in repo
    case NotFound(name) => name == spec.name && name !in repo
    case WrongVersion(s) => s == spec && spec.name in repo && !ignoreVersions && !Accepts(spec, repo[spec.name].version)
    case TooDeep(name) => name == spec.name && depth >= 254
  }

  method CheckVersion(spec: PkgSpec, version: string, ignoreVersions: bool) returns (ok: bool)
    ensures ok <==> ignoreVersions || Accepts(spec, version)
  {
    hide Compare;
    if spec.op != AnyVersion && !ignoreVersions {
      var cmp := CompareVersions(version, spec.version);
      return ValidCompare(spec.op, cmp);
    }
    ok := true;
  }

  // The next specification at the top is taken off, and the package is being loaded there.
  method TakeSpec(t: Pkgs, stack: array<ProcState>, top: int, p: Pkg) returns (spec: PkgSpec)
    requires GoodStack(t, stack, top) && top >= 0 && stack[top].specs != [] && t.Holds(p)
    modifies stack
    ensures GoodStack(t, stack, top) && spec == old(stack[top].specs[0])
    ensures var f := old(Frames(stack, top));
            Frames(stack, top) == f[..top] + [Frame(f[top].specs[1..], Some(p.realname), f[top].flags)]
    ensures stack[top].flags == old(stack[top].flags)
  {
    spec := stack[top].specs[0];
    stack[top] := ProcState(stack[top].specs[1..], p, stack[top].flags);
  }

  ghost function Levels(recursive: bool, info: PkgInfo, public: bool): seq<Frame> {
    if recursive then
      [Frame(info.requires', None, Flags(false, public)), Frame(info.requiresPrivate, None, Flags(false, false))]
    else []
  }

  // Two levels are pushed: what the package requires publicly, and on top of it what it requires privately.
  method Descend(recursive: bool, t: Pkgs, stack: array<ProcState>, top: int, info: PkgInfo, public: bool)
    returns (ok: bool, top': int)
    requires GoodStack(t, stack, top) && top >= 0
    modifies stack
    ensures !ok ==> top + 2 >= stack.Length
    ensures ok ==> GoodStack(t, stack, top')
    ensures ok ==> Frames(stack, top') == old(Frames(stack, top)) + Levels(recursive, info, public)
  {
    ok, top' := true, top;
    if recursive {
      if top >= stack.Length - 2 {
        return false, top;
      }
      top' := top' + 1;
      stack[top'] := ProcState(info.requires', stack[top'].newpkg, Flags(false, public));
      top' := top' + 1;
      stack[top'] := ProcState(info.requiresPrivate, stack[top'].newpkg, Flags(false, false));
    }
  }

  // A package met for the first time is read, its version is checked and what it requires is pushed.
  method LoadNew(repo: Repo, recursive: bool, ignoreVersions: bool, t: Pkgs, stack: array<ProcState>, top: int, p: Pkg,
                 ghost before: State)
    returns (outcome: Outcome, top': int)
    requires t.Valid() && OthersRead(repo, t, p.realname) && GoodStack(t, stack, top) && 0 <= top && stack.Length == 256
    requires stack[top].specs != [] && stack[top].newpkg == null
    requires t.Holds(p) && p.realname == stack[top].specs[0].name && p.realname !in before.loaded
    requires Frames(stack, top) == before.stack && before.stack != [] && Top(before).specs != []
    requires t.Flagged() == before.loaded[p.realname := Flags(false, false)] && RealNames(t.chain) == before.order
    modifies stack, p`contents, p`direct, p`public
    ensures Justified(repo, ignoreVersions, old(stack[top].specs[0]), top, outcome)
    ensures outcome.Resolved? ==> t.Valid() && AllRead(repo, t) && GoodStack(t, stack, top')
    ensures outcome.Resolved? ==> StateOf(t, stack, top') == Stepped(repo, recursive, before)
    ensures outcome.Resolved? ==> Suits(repo, !ignoreVersions, old(stack[top].specs[0]), p.realname)
  {
    hide Pkgs.Valid, Pkgs.Linked, Pkgs.Flagged, Stepped, WithTop, RealNames, At, OldFlags, Frames, StateOf, FrameOf, Compare,
      AllRead, OthersRead, Pkgs.Holds, GoodStack, Levels;
    TopIsIn(t, stack, top);
    TopFrame(t, stack, top);
    FlagsOf(t, p);
    OthersReadThat(repo, t, p.realname);
    var flags := stack[top].flags;
    var spec := TakeSpec(t, stack, top, p);
    ghost var taken := before.stack[..|before.stack| - 1] + [Frame(Top(before).specs[1..], Some(p.realname), flags)];
    assert Frames(stack, top) == taken;
    if p.realname !in repo {
      return NotFound(p.realname), top;
    }
    var info := repo[p.realname];
    t.Fill(p, info);
    NowRead(repo, t, p);
    var ok := CheckVersion(spec, info.version, ignoreVersions);
    if !ok {
      return WrongVersion(spec), top;
    }
    ok, top' := Descend(recursive, t, stack, top, info, flags.public);
    if !ok {
      return TooDeep(p.realname), top;
    }
    Loaded(repo, recursive, before);
    assert Frames(stack, top') == Stepped(repo, recursive, before).stack;
    assert t.Flagged() == before.loaded[p.realname := Flags(false, false)];
    t.Mark(p, flags);
    assert Flags(p.direct, p.public) == flags;
    outcome := Resolved;
    UpdateTwice(before.loaded, p.realname, Flags(false, false), flags);
    assert t.Flagged() == Stepped(repo, recursive, before).loaded;
    assert RealNames(t.chain) == Stepped(repo, recursive, before).order;
    assert Frames(stack, top') == Stepped(repo, recursive, before).stack;
    IsState(t, stack, top', Stepped(repo, recursive, before));
  }

  lemma OthersReadThat(repo: Repo, t: Pkgs, y: string)
    requires OthersRead(repo, t, y)
    ensures forall x :: x in t.pkgs && x != y ==> x in repo && t.pkgs[x].contents == Some(repo[x])
  {
  }

  lemma NowRead(repo: Repo, t: Pkgs, p: Pkg)
    requires forall x :: x in t.pkgs && x != p.realname ==> x in repo && t.pkgs[x].contents == Some(repo[x])
    requires t.Holds(p) && p.realname in repo && p.contents == Some(repo[p.realname])
    ensures AllRead(repo, t)
  {
  }

  lemma Loaded(repo: Repo, recursive: bool, st: State)
    requires st.stack != [] && Top(st).specs != []
    requires Top(st).specs[0].name !in st.loaded && Top(st).specs[0].name in repo
    ensures var y, f := Top(st).specs[0].name, Top(st);
            && Stepped(repo, recursive, st).loaded == st.loaded[y := f.flags]
            && Stepped(repo, recursive, st).order == st.order
            && Stepped(repo, recursive, st).stack ==
               st.stack[..|st.stack| - 1] + [Frame(f.specs[1..], Some(y), f.flags)]
               + Levels(recursive, repo[y], f.flags.public)
  {
  }

  // ----- The whole traversal -----

  // The requirements that count: none when only the named packages are to be loaded.
  ghost function Seen(repo: Repo, recursive: bool): Repo {
    if recursive then repo else map x | x in repo :: PkgInfo(repo[x].version, [], [])
  }

  lemma StepKeeps(repo: Repo, recursive: bool, named: seq<PkgSpec>, st: State)
    requires st.stack != [] && Top(st).specs != [] && Top(st).newpkg == None
    requires Invariant(Seen(repo, recursive), named, st) && Top(st).specs[0].name in repo
    ensures Invariant(Seen(repo, recursive), named, Stepped(repo, recursive, st))
  {
    hide Invariant, Upgrade, Load, Take;
    var y := Top(st).specs[0].name;
    if !recursive {
      NothingPushed(repo, named, st, if y in st.loaded then None else Some(y));
    } else if y !in st.loaded {
      LoadKeeps(repo, named, st);
    } else if Top(st).flags.public && !st.loaded[y].public {
      UpgradeKeeps(repo, named, st);
    } else {
      SkipKeeps(repo, named, st);
    }
  }

  lemma NothingPushed(repo: Repo, named: seq<PkgSpec>, st: State, newpkg: Option<string>)
    requires st.stack != [] && Top(st).specs != [] && Top(st).newpkg == None
    requires Invariant(Seen(repo, false), named, st) && Top(st).specs[0].name in repo
    requires LoadsNew(st, newpkg)
    ensures Invariant(Seen(repo, false), named, Take(st, newpkg, []))
  {
    hide Invariant, Take, Requires;
    var y := Top(st).specs[0].name;
    assert forall p: bool, z :: !Requires(Seen(repo, false), p, y, z) by {
      NothingRequired(repo, y);
    }
    TakeKeeps(Seen(repo, false), named, st, newpkg, []);
  }

  lemma NothingRequired(repo: Repo, y: string)
    ensures forall p: bool, z :: !Requires(Seen(repo, false), p, y, z)
  {
  }

  // ----- Why it ends -----

  ghost function Unloaded(repo: Repo, st: State): set<string> {
    repo.Keys - st.loaded.Keys
  }

  ghost function Privates(st: State): set<string> {
    set x | x in st.loaded && !st.loaded[x].public
  }

  // Specifications left, and levels.
  ghost function Work(stack: seq<Frame>): nat {
    if stack == [] then 0 else Work(stack[..|stack| - 1]) + |stack[|stack| - 1].specs| + 1
  }

  // One state is further on than another.
  ghost predicate Lower(repo: Repo, after: State, before: State) {
    || Unloaded(repo, after) < Unloaded(repo, before)
    || (Unloaded(repo, after) == Unloaded(repo, before) && Privates(after) < Privates(before))
    || (Unloaded(repo, after) == Unloaded(repo, before) && Privates(after) == Privates(before)
        && Work(after.stack) < Work(before.stack))
  }

  lemma FinishMeasure(repo: Repo, st: State)
    requires st.stack != [] && Top(st).newpkg.Some?
    ensures Unloaded(repo, Finish(st)) == Unloaded(repo, st) && Privates(Finish(st)) == Privates(st)
    ensures Work(Finish(st).stack) == Work(st.stack)
  {
    assert Finish(st).stack[..|st.stack| - 1] == st.stack[..|st.stack| - 1];
  }

  lemma SkipMeasure(repo: Repo, st: State)
    requires st.stack != [] && Top(st).specs != [] && Top(st).specs[0].name in st.loaded
    requires Top(st).flags.public ==> st.loaded[Top(st).specs[0].name].public
    ensures Unloaded(repo, Skip(st)) == Unloaded(repo, st) && Privates(Skip(st)) == Privates(st)
    ensures Work(Skip(st).stack) < Work(st.stack)
  {
    assert Skip(st).stack == WithTop(st.stack, Top(Skip(st)));
    assert Skip(st).stack[..|st.stack| - 1] == st.stack[..|st.stack| - 1];
  }

  lemma PublicMeasure(repo: Repo, st: State, pushed: seq<Frame>)
    requires st.stack != [] && Top(st).specs != [] && Top(st).specs[0].name in st.loaded
    requires Top(st).flags.public && !st.loaded[Top(st).specs[0].name].public
    ensures Unloaded(repo, Take(st, None, pushed)) == Unloaded(repo, st)
    ensures Privates(Take(st, None, pushed)) < Privates(st)
  {
    var y := Top(st).specs[0].name;
    assert Privates(Take(st, None, pushed)) == Privates(st) - {y};
    assert y in Privates(st);
  }

  lemma LoadMeasure(repo: Repo, st: State, newpkg: Option<string>, pushed: seq<Frame>)
    requires st.stack != [] && Top(st).specs != [] && Top(st).specs[0].name !in st.loaded
    requires Top(st).specs[0].name in repo
    ensures Unloaded(repo, Take(st, newpkg, pushed)) < Unloaded(repo, st)
  {
    var y := Top(st).specs[0].name;
    assert Unloaded(repo, Take(st, newpkg, pushed)) == Unloaded(repo, st) - {y};
    assert y in Unloaded(repo, st);
  }

  lemma StepMeasure(repo: Repo, recursive: bool, st: State)
    requires st.stack != [] && Top(st).specs != [] && Top(st).specs[0].name in repo
    ensures Lower(repo, Stepped(repo, recursive, st), st)
  {
    hide Take, Unloaded, Privates, Work;
    var y := Top(st).specs[0].name;
    if y !in st.loaded {
      var pushed := if recursive then
        [Frame(repo[y].requires', None, Flags(false, Top(st).flags.public)), Frame(repo[y].requiresPrivate, None, Flags(false, false))]
      else [];
      LoadMeasure(repo, st, Some(y), pushed);
    } else if Top(st).flags.public && !st.loaded[y].public {
      PublicMeasure(repo, st, if recursive then [Frame(repo[y].requires', None, Flags(false, Top(st).flags.public))] else []);
    } else {
      SkipMeasure(repo, st);
    }
  }

  method Find(repo: Repo, t: Pkgs, stack: array<ProcState>, top: int, name: string) returns (p: Pkg)
    requires t.Valid() && AllRead(repo, t) && GoodStack(t, stack, top)
    modifies t`pkgs, t`count
    ensures t.Valid() && t.Holds(p) && p.realname == name && GoodStack(t, stack, top)
    ensures t.pkgs == old(t.pkgs)[name := p] && (p in old(t.pkgs.Values) || fresh(p))
    ensures p.contents.Some? <==> name in old(t.Flagged())
    ensures p.contents.Some? ==> t.Flagged() == old(t.Flagged()) && AllRead(repo, t)
    ensures p.contents == None ==>
              OthersRead(repo, t, name) && t.Flagged() == old(t.Flagged())[name := Flags(false, false)]
  {
    hide Pkgs.Valid, Pkgs.Linked, At;
    p := t.Locate(name);
  }

  // One turn of the loop after the top has settled: the next specification is taken off and its
  // package located.
  method Advance(repo: Repo, recursive: bool, ignoreVersions: bool, t: Pkgs, stack: array<ProcState>, top: int,
                 ghost before: State)
    returns (outcome: Outcome, top': int)
    requires t.Valid() && AllRead(repo, t) && GoodStack(t, stack, top) && top >= 0 && stack.Length == 256
    requires stack[top].specs != [] && stack[top].newpkg == null
    requires before == StateOf(t, stack, top) && before.stack != [] && Top(before).specs != []
    modifies t`pkgs, t`count, t.pkgs.Values, stack
    ensures fresh(t.pkgs.Values - old(t.pkgs.Values))
    ensures Justified(repo, ignoreVersions, Top(before).specs[0], top, outcome)
    ensures outcome.Resolved? ==> t.Valid() && AllRead(repo, t) && GoodStack(t, stack, top')
    ensures outcome.Resolved? ==>
              var spec := Top(before).specs[0];
              && StateOf(t, stack, top') == Stepped(repo, recursive, before)
              && (spec.name !in before.loaded ==> Suits(repo, !ignoreVersions, spec, spec.name))
  {
    hide Pkgs.Valid, Pkgs.Linked, Pkgs.Flagged, Stepped, WithTop, RealNames, At, OldFlags, Frames, StateOf, FrameOf,
      AllRead, OthersRead, GoodStack;
    TopIsIn(t, stack, top);
    StateParts(t, stack, top);
    TopFrame(t, stack, top);
    var name := stack[top].specs[0].name;
    var p := Find(repo, t, stack, top, name);
    if p.contents.Some? {
      ReadOf(repo, t, p);
      IsState(t, stack, top, before);
      var ok;
      ok, top' := Revisit(repo, recursive, t, stack, top, p, before);
      outcome := if ok then Resolved else TooDeep(name);
    } else {
      outcome, top' := LoadNew(repo, recursive, ignoreVersions, t, stack, top, p, before);
    }
  }

  // ----- What the loop of the traversal needs at its steps -----

  lemma StartState(repo: Repo, t: Pkgs, stack: array<ProcState>, specs: seq<PkgSpec>)
    requires t.pkgs == map[] && t.chain == [] && stack.Length == 256
    requires stack[0] == ProcState(specs, null, Flags(true, true)) && forall k :: 0 < k < 256 ==> stack[k].newpkg == null
    ensures AllRead(repo, t) && GoodStack(t, stack, 0) && StateOf(t, stack, 0) == Start(specs)
  {
    assert t.Flagged() == map[];
  }

  lemma SettledKeeps(repo: Repo, seen: Repo, named: seq<PkgSpec>, st: State)
    requires st.stack != [] && Invariant(seen, named, st)
    ensures Invariant(seen, named, Settled(st)) && Settled(st).stack != [] && Top(Settled(st)).newpkg == None
    ensures Unloaded(repo, Settled(st)) == Unloaded(repo, st) && Privates(Settled(st)) == Privates(st)
    ensures Work(Settled(st).stack) == Work(st.stack)
  {
    hide Invariant, Unloaded, Privates, Work;
    if Top(st).newpkg.Some? {
      FinishKeeps(seen, named, st);
      FinishMeasure(repo, st);
    }
  }

  lemma InvariantListed(seen: Repo, named: seq<PkgSpec>, st: State)
    requires Invariant(seen, named, st)
    ensures Listed(st)
  {
    hide Listed, Sound, Complete;
  }

  lemma TopOf(t: Pkgs, stack: array<ProcState>, top: int)
    requires -1 <= top < stack.Length
    ensures |StateOf(t, stack, top).stack| == top + 1
    ensures top >= 0 ==> Top(StateOf(t, stack, top)).specs == stack[top].specs
    ensures top >= 0 ==> (Top(StateOf(t, stack, top)).newpkg == None <==> stack[top].newpkg == null)
  {
  }

  lemma PopState(repo: Repo, t: Pkgs, stack: array<ProcState>, top: int)
    requires GoodStack(t, stack, top) && top >= 0 && stack[top].specs == [] && stack[top].newpkg == null
    ensures GoodStack(t, stack, top - 1) && StateOf(t, stack, top - 1) == Pop(StateOf(t, stack, top))
    ensures Lower(repo, Pop(StateOf(t, stack, top)), StateOf(t, stack, top))
  {
    assert Frames(stack, top - 1) == Frames(stack, top)[..top];
  }

  lemma TopIsNeeded(repo: Repo, recursive: bool, named: seq<PkgSpec>, st: State)
    requires Invariant(Seen(repo, recursive), named, st) && st.stack != [] && Top(st).specs != []
    ensures Needed(Seen(repo, recursive), false, named, Top(st).specs[0].name)
  {
    hide Needed, Complete, Listed, DependencyOrder, Nested;
    assert Waits(st.stack, |st.stack| - 1, Top(st).specs[0].name);
  }

  // What an outcome that is a failure says of the packages needed.
  ghost predicate Truthful(repo: Repo, recursive: bool, ignoreVersions: bool, named: seq<PkgSpec>, outcome: Outcome) {
    match outcome
    case Resolved => true
    case NotFound(name) => name !in repo && Needed(Seen(repo, recursive), false, named, name)
    case WrongVersion(spec) =>
      && !ignoreVersions && spec.name in repo && !Accepts(spec, repo[spec.name].version)
      && Needed(Seen(repo, recursive), false, named, spec.name) && Asked(Seen(repo, recursive), named, spec)
    case TooDeep(name) => Needed(Seen(repo, recursive), false, named, name) && ReallyDeep(Seen(repo, recursive), named, name)
  }

  lemma FailureIsTruthful(repo: Repo, recursive: bool, ignoreVersions: bool, named: seq<PkgSpec>, st: State, depth: int,
                          outcome: Outcome)
    requires Invariant(Seen(repo, recursive), named, st) && Shallow(Seen(repo, recursive), named, st)
    requires Heard(Seen(repo, recursive), named, !ignoreVersions, st)
    requires st.stack != [] && Top(st).specs != [] && |st.stack| == depth + 1
    requires Justified(repo, ignoreVersions, Top(st).specs[0], depth, outcome)
    ensures Truthful(repo, recursive, ignoreVersions, named, outcome)
  {
    hide Needed, Invariant, Accepts, Shallow, ReallyDeep, Heard, Asked;
    TopIsNeeded(repo, recursive, named, st);
    TopIsAsked(Seen(repo, recursive), named, !ignoreVersions, st);
    InvariantSound(Seen(repo, recursive), named, st);
    if outcome.TooDeep? {
      FullStackIsDeep(Seen(repo, recursive), named, st);
    }
  }

  lemma InvariantSound(repo: Repo, named: seq<PkgSpec>, st: State)
    requires Invariant(repo, named, st)
    ensures Sound(repo, named, st)
  {
    hide Sound, Complete, Listed;
  }

  lemma SettledShallow(seen: Repo, named: seq<PkgSpec>, st: State)
    requires st.stack != [] && Shallow(seen, named, st)
    ensures Shallow(seen, named, Settled(st))
  {
    hide Shallow;
    if Top(st).newpkg.Some? {
      FinishShallow(seen, named, st);
    }
  }

  lemma StepShallow(repo: Repo, recursive: bool, named: seq<PkgSpec>, st: State)
    requires st.stack != [] && Top(st).specs != [] && Shallow(Seen(repo, recursive), named, st)
    requires Top(st).specs[0].name in repo
    ensures Shallow(Seen(repo, recursive), named, Stepped(repo, recursive, st))
  {
    hide Shallow, Upgrade, Load, Take;
    var y := Top(st).specs[0].name;
    if !recursive || (y in st.loaded && !(Top(st).flags.public && !st.loaded[y].public)) {
      SkipsTake(st);
      TakeShallow(Seen(repo, recursive), named, st, if y in st.loaded then None else Some(y), []);
    } else if y !in st.loaded {
      LoadShallow(repo, named, st);
    } else {
      UpgradeShallow(repo, named, st);
    }
  }

  lemma SettledHeard(seen: Repo, named: seq<PkgSpec>, checked: bool, st: State)
    requires st.stack != [] && Heard(seen, named, checked, st)
    ensures Heard(seen, named, checked, Settled(st))
  {
    hide Heard;
    if Top(st).newpkg.Some? {
      FinishHeard(seen, named, checked, st);
    }
  }

  lemma StepHeard(repo: Repo, recursive: bool, named: seq<PkgSpec>, checked: bool, st: State)
    requires st.stack != [] && Top(st).specs != [] && Heard(Seen(repo, recursive), named, checked, st)
    requires var spec := Top(st).specs[0];
             && spec.name in repo && Needed(Seen(repo, recursive), false, named, spec.name)
             && (spec.name !in st.loaded ==> Suits(repo, checked, spec, spec.name))
    ensures Heard(Seen(repo, recursive), named, checked, Stepped(repo, recursive, st))
  {
    hide Heard, Upgrade, Load, Take, Needed, Accepts;
    var y := Top(st).specs[0].name;
    if !recursive || (y in st.loaded && !(Top(st).flags.public && !st.loaded[y].public)) {
      SkipsTake(st);
      TakeHeard(Seen(repo, recursive), named, checked, st, if y in st.loaded then None else Some(y), []);
    } else if y !in st.loaded {
      LoadHeard(repo, named, checked, st);
    } else {
      UpgradeHeard(repo, named, checked, st);
    }
  }

  // For whatever is loaded at the end someone vouches.
  lemma HeardMeans(seen: Repo, named: seq<PkgSpec>, checked: bool, st: State)
    requires Heard(seen, named, checked, st)
    ensures forall y :: y in st.loaded ==> Vouched(seen, named, checked, y)
  {
  }

  lemma SkipsTake(st: State)
    requires st.stack != [] && Top(st).specs != []
    ensures Skip(st) == Take(st, None, [])
  {
  }

  // One turn of the loop.
  method Turn(repo: Repo, recursive: bool, ignoreVersions: bool, named: seq<PkgSpec>, t: Pkgs, stack: array<ProcState>, top: int,
              ghost before: State)
    returns (outcome: Outcome, top': int)
    requires t.Valid() && AllRead(repo, t) && GoodStack(t, stack, top) && 0 <= top < stack.Length == 256
    requires before == StateOf(t, stack, top) && Invariant(Seen(repo, recursive), named, before)
    requires Shallow(Seen(repo, recursive), named, before) && Heard(Seen(repo, recursive), named, !ignoreVersions, before)
    modifies t, t.pkgs.Values, stack
    ensures fresh(t.pkgs.Values - old(t.pkgs.Values))
    ensures Truthful(repo, recursive, ignoreVersions, named, outcome)
    ensures outcome.Resolved? ==>
              && t.Valid() && AllRead(repo, t) && GoodStack(t, stack, top') && -1 <= top' < 256
              && Invariant(Seen(repo, recursive), named, StateOf(t, stack, top'))
              && Shallow(Seen(repo, recursive), named, StateOf(t, stack, top'))
              && Heard(Seen(repo, recursive), named, !ignoreVersions, StateOf(t, stack, top'))
              && Lower(repo, StateOf(t, stack, top'), before)
  {
    hide *;
    TopOf(t, stack, top);
    InvariantListed(Seen(repo, recursive), named, before);
    SettledKeeps(repo, Seen(repo, recursive), named, before);
    SettledShallow(Seen(repo, recursive), named, before);
    SettledHeard(Seen(repo, recursive), named, !ignoreVersions, before);
    Settle(repo, t, stack, top);
    ghost var settled := StateOf(t, stack, top);
    TopOf(t, stack, top);
    if stack[top].specs == [] {
      PopState(repo, t, stack, top);
      PopKeeps(Seen(repo, recursive), named, settled);
      PopShallow(Seen(repo, recursive), named, settled);
      PopHeard(Seen(repo, recursive), named, !ignoreVersions, settled);
      outcome, top' := Resolved, top - 1;
      LowerStill(repo, StateOf(t, stack, top'), settled, before);
      ResolvedIsTruthful(repo, recursive, ignoreVersions, named);
    } else {
      StackHeight(t, stack, top);
      outcome, top' := Advance(repo, recursive, ignoreVersions, t, stack, top, settled);
      FailureIsTruthful(repo, recursive, ignoreVersions, named, settled, top, outcome);
      if outcome.Resolved? {
        TopIsIn(t, stack, top');
        ResolvedIsIn(repo, ignoreVersions, Top(settled).specs[0], top);
        StepKeeps(repo, recursive, named, settled);
        StepShallow(repo, recursive, named, settled);
        TopIsNeeded(repo, recursive, named, settled);
        StepHeard(repo, recursive, named, !ignoreVersions, settled);
        StepMeasure(repo, recursive, settled);
        LowerStill(repo, StateOf(t, stack, top'), settled, before);
      }
    }
  }

  lemma ResolvedIsIn(repo: Repo, ignoreVersions: bool, spec: PkgSpec, depth: int)
    requires Justified(repo, ignoreVersions, spec, depth, Resolved)
    ensures spec.name in repo
  {
  }

  lemma ResolvedIsTruthful(repo: Repo, recursive: bool, ignoreVersions: bool, named: seq<PkgSpec>)
    ensures Truthful(repo, recursive, ignoreVersions, named, Resolved)
  {
  }

  lemma LowerStill(repo: Repo, after: State, settled: State, before: State)
    requires Unloaded(repo, settled) == Unloaded(repo, before) && Privates(settled) == Privates(before)
    requires Work(settled.stack) == Work(before.stack)
    requires Lower(repo, after, settled)
    ensures Lower(repo, after, before)
  {
  }

  lemma LowerMeans(repo: Repo, after: State, before: State)
    requires Lower(repo, after, before)
    ensures || Unloaded(repo, after) < Unloaded(repo, before)
            || (Unloaded(repo, after) == Unloaded(repo, before) && Privates(after) < Privates(before))
            || (Unloaded(repo, after) == Unloaded(repo, before) && Privates(after) == Privates(before)
                && Work(after.stack) < Work(before.stack))
  {
  }

  class Processor {
    const stack: array<ProcState>
    const recursive: bool
    const ignoreVersions: bool

    constructor (recursive: bool, ignoreVersions: bool)
      ensures fresh(stack) && Ready() && this.recursive == recursive && this.ignoreVersions == ignoreVersions
    {
      stack := new ProcState[256](_ => ProcState([], null, Flags(false, false)));
      this.recursive, this.ignoreVersions := recursive, ignoreVersions;
    }

    lemma InReady()
      requires Ready()
      ensures stack.Length == 256 && forall k :: 0 <= k < 256 ==> stack[k].newpkg == null
    {
    }

    // Nothing is being loaded: so the stack is before the first traversal, and after each that succeeds.
    ghost predicate Ready()
      reads this, stack
    {
      stack.Length == 256 && forall k :: 0 <= k < 256 ==> stack[k].newpkg == null
    }

    lemma ReadyAgain(t: Pkgs, top: int)
      requires stack.Length == 256 && GoodStack(t, stack, top) && top == -1
      ensures Ready()
    {
    }

    /** Loads the named packages and what they require. On success the packages are exactly those
        reachable from the named ones, each in the list once; a package is public exactly if it is
        reachable by public requirements alone, and direct exactly if it was named; and without
        cycles every package in the list stands before all it requires. */
    method Process(repo: Repo, specs: seq<PkgSpec>) returns (outcome: Outcome, t: Pkgs)
      requires Ready()
      modifies stack
      ensures Truthful(repo, recursive, ignoreVersions, specs, outcome)
      ensures fresh(t) && fresh(t.pkgs.Values)
      ensures outcome.Resolved? ==> Ready() && t.Valid() && AllRead(repo, t)
      ensures outcome.Resolved? ==> forall x :: x in t.pkgs <==> Needed(Seen(repo, recursive), false, specs, x)
      ensures outcome.Resolved? ==> forall x :: x in t.pkgs ==>
                && (t.pkgs[x].public <==> Needed(Seen(repo, recursive), true, specs, x))
                && (t.pkgs[x].direct <==> Names(specs, x))
      ensures outcome.Resolved? ==> forall x :: x in t.pkgs ==> Vouched(Seen(repo, recursive), specs, !ignoreVersions, x)
      ensures outcome.Resolved? ==> forall x :: x in RealNames(t.chain) <==> x in t.pkgs
      ensures outcome.Resolved? && Acyclic(Seen(repo, recursive)) ==>
                DependencyOrder(Seen(repo, recursive), RealNames(t.chain))
    {
      hide *;
      t := new Pkgs();
      var top := 0;
      InReady();
      stack[0] := ProcState(specs, null, Flags(true, true));
      StartState(repo, t, stack, specs);
      StartKeeps(Seen(repo, recursive), specs);
      StartShallow(Seen(repo, recursive), specs);
      StartHeard(Seen(repo, recursive), specs, !ignoreVersions);
      ghost var st := StateOf(t, stack, top);
      while top >= 0
        invariant fresh(t) && fresh(t.pkgs.Values) && stack.Length == 256 && -1 <= top < 256
        invariant t.Valid() && AllRead(repo, t) && GoodStack(t, stack, top)
        invariant st == StateOf(t, stack, top) && Invariant(Seen(repo, recursive), specs, st)
        invariant Shallow(Seen(repo, recursive), specs, st) && Heard(Seen(repo, recursive), specs, !ignoreVersions, st)
        decreases Unloaded(repo, st), Privates(st), Work(st.stack)
      {
        ghost var before := st;
        outcome, top := Turn(repo, recursive, ignoreVersions, specs, t, stack, top, before);
        if !outcome.Resolved? {
          return;
        }
        st := StateOf(t, stack, top);
        LowerMeans(repo, st, before);
      }
      outcome := Resolved;
      TopOf(t, stack, top);
      DoneMeans(Seen(repo, recursive), specs, st);
      HeardMeans(Seen(repo, recursive), specs, !ignoreVersions, st);
      StateParts(t, stack, top);
      FlaggedAll(t);
      ReadyAgain(t, top);
      ResolvedIsTruthful(repo, recursive, ignoreVersions, specs);
      var present := t.AllPresent();
      assert present;
    }
  }
}
