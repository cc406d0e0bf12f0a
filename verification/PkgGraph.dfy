/** Packages and what they require: the requirement graph, and the states of its traversal. */
module PkgGraph {
  import opened Common
  import opened VersionOrder

  datatype VersOp = AnyVersion | Less | LessEqual | EqualTo | GreaterEqual | Greater

  datatype PkgSpec = PkgSpec(name: string, op: VersOp, version: string)

  // A package as it is read: its version, and its public and private requirements.
  datatype PkgInfo = PkgInfo(version: string, requires': seq<PkgSpec>, requiresPrivate: seq<PkgSpec>)

  type Repo = map<string, PkgInfo>

  predicate ValidCompare(op: VersOp, result: int) {
    match op
    case AnyVersion => true
    case Less => result < 0
    case LessEqual => result <= 0
    case EqualTo => result == 0
    case GreaterEqual => result >= 0
    case Greater => result > 0
  }

  predicate Accepts(spec: PkgSpec, version: string) {
    ValidCompare(spec.op, Compare(version, spec.version))
  }

  // ----- Reachability -----

  ghost predicate Names(specs: seq<PkgSpec>, x: string) {
    exists s :: s in specs && s.name == x
  }

  // x requires y; with pub, publicly.
  ghost predicate Requires(repo: Repo, pub: bool, x: string, y: string) {
    x in repo && (Names(repo[x].requires', y) || (!pub && Names(repo[x].requiresPrivate, y)))
  }

  ghost predicate Path(repo: Repo, pub: bool, p: seq<string>) {
    p != [] && (|p| > 1 ==> Requires(repo, pub, p[0], p[1]) && Path(repo, pub, p[1..]))
  }

  ghost predicate PathTo(repo: Repo, pub: bool, p: seq<string>, x: string, y: string) {
    Path(repo, pub, p) && p[0] == x && p[|p| - 1] == y
  }

  ghost predicate Reaches(repo: Repo, pub: bool, x: string, y: string) {
    exists p :: PathTo(repo, pub, p, x, y)
  }

  // y is x itself or required by it, over any number of steps, for some x that is named.
  ghost predicate Needed(repo: Repo, pub: bool, named: seq<PkgSpec>, y: string) {
    exists x :: Names(named, x) && Reaches(repo, pub, x, y)
  }

  ghost predicate Below(repo: Repo, x: string, y: string) {
    exists z :: Requires(repo, false, x, z) && Reaches(repo, false, z, y)
  }

  ghost predicate Acyclic(repo: Repo) {
    forall x :: !Below(repo, x, x)
  }

  lemma {:induction false} PathThen(repo: Repo, pub: bool, p: seq<string>, y: string, z: string)
    requires Path(repo, pub, p) && p[|p| - 1] == y && Requires(repo, pub, y, z)
    ensures Path(repo, pub, p + [z])
    decreases |p|
  {
    if |p| == 1 {
      assert (p + [z])[1..] == [z];
    } else {
      PathThen(repo, pub, p[1..], y, z);
      assert (p + [z])[1..] == p[1..] + [z];
    }
  }

  lemma ReachesThen(repo: Repo, pub: bool, x: string, y: string, z: string)
    requires Reaches(repo, pub, x, y) && Requires(repo, pub, y, z)
    ensures Reaches(repo, pub, x, z)
  {
    var p :| PathTo(repo, pub, p, x, y);
    PathThen(repo, pub, p, y, z);
    assert PathTo(repo, pub, p + [z], x, z);
  }

  lemma ReachesSelf(repo: Repo, pub: bool, x: string)
    ensures Reaches(repo, pub, x, x)
  {
    assert PathTo(repo, pub, [x], x, x);
  }

  lemma NeededThen(repo: Repo, pub: bool, named: seq<PkgSpec>, y: string, z: string)
    requires Needed(repo, pub, named, y) && Requires(repo, pub, y, z)
    ensures Needed(repo, pub, named, z)
  {
    var x :| Names(named, x) && Reaches(repo, pub, x, y);
    ReachesThen(repo, pub, x, y, z);
  }

  lemma NamedIsNeeded(repo: Repo, pub: bool, named: seq<PkgSpec>, x: string)
    requires Names(named, x)
    ensures Needed(repo, pub, named, x)
  {
    ReachesSelf(repo, pub, x);
  }

  lemma BelowThen(repo: Repo, x: string, y: string, z: string)
    requires Below(repo, x, y) && Requires(repo, false, y, z)
    ensures Below(repo, x, z)
  {
    var w :| Requires(repo, false, x, w) && Reaches(repo, false, w, y);
    ReachesThen(repo, false, w, y, z);
  }

  lemma RequiredIsBelow(repo: Repo, x: string, y: string)
    requires Requires(repo, false, x, y)
    ensures Below(repo, x, y)
  {
    ReachesSelf(repo, false, y);
  }

  // A set that holds what is named and what its members require holds all that is needed.
  lemma {:induction false} ClosedHoldsPath(repo: Repo, pub: bool, s: set<string>, p: seq<string>)
    requires forall x, y :: x in s && Requires(repo, pub, x, y) ==> y in s
    requires Path(repo, pub, p) && p[0] in s
    ensures p[|p| - 1] in s
    decreases |p|
  {
    if |p| > 1 {
      ClosedHoldsPath(repo, pub, s, p[1..]);
    }
  }

  lemma ClosedHoldsNeeded(repo: Repo, pub: bool, named: seq<PkgSpec>, s: set<string>, y: string)
    requires forall x, y :: x in s && Requires(repo, pub, x, y) ==> y in s
    requires forall x :: Names(named, x) ==> x in s
    requires Needed(repo, pub, named, y)
    ensures y in s
  {
    var x :| Names(named, x) && Reaches(repo, pub, x, y);
    var p :| PathTo(repo, pub, p, x, y);
    ClosedHoldsPath(repo, pub, s, p);
  }

  // ----- States of the traversal -----

  datatype Flags = Flags(direct: bool, public: bool)

  // What is left to look at on one level, the package being loaded there, and the flags to give.
  datatype Frame = Frame(specs: seq<PkgSpec>, newpkg: Option<string>, flags: Flags)

  // The stack, the packages loaded with their flags, and the list of those finished, last first.
  datatype State = State(stack: seq<Frame>, loaded: map<string, Flags>, order: seq<string>)

  ghost predicate Waits(stack: seq<Frame>, k: int, y: string) {
    0 <= k < |stack| && Names(stack[k].specs, y)
  }

  ghost predicate Loading(stack: seq<Frame>, k: int, x: string) {
    0 <= k < |stack| && stack[k].newpkg == Some(x)
  }

  // y waits somewhere with at least these flags.
  ghost predicate WaitsWith(stack: seq<Frame>, y: string, direct: bool, public: bool) {
    exists k :: Waits(stack, k, y) && (direct ==> stack[k].flags.direct) && (public ==> stack[k].flags.public)
  }

  // y is loaded with at least these flags, or waits with them.
  ghost predicate Cared(st: State, y: string, direct: bool, public: bool) {
    (y in st.loaded && (direct ==> st.loaded[y].direct) && (public ==> st.loaded[y].public))
    || WaitsWith(st.stack, y, direct, public)
  }

  // Only what is needed waits or is loaded; public only what is needed publicly; direct only what is named.
  ghost predicate SoundFlags(repo: Repo, named: seq<PkgSpec>, y: string, f: Flags) {
    && Needed(repo, false, named, y)
    && (f.public ==> Needed(repo, true, named, y))
    && (f.direct ==> Names(named, y))
  }

  ghost predicate Sound(repo: Repo, named: seq<PkgSpec>, st: State) {
    && (forall k, y :: Waits(st.stack, k, y) ==> SoundFlags(repo, named, y, st.stack[k].flags))
    && (forall y :: y in st.loaded ==> y in repo && SoundFlags(repo, named, y, st.loaded[y]))
  }

  // Whatever a loaded package requires is cared for, publicly if the package is public, and so is
  // whatever was named.
  ghost predicate Complete(repo: Repo, named: seq<PkgSpec>, st: State) {
    && (forall x, y :: x in st.loaded && Requires(repo, false, x, y) ==> Cared(st, y, false, false))
    && (forall x, y :: x in st.loaded && st.loaded[x].public && Requires(repo, true, x, y) ==> Cared(st, y, false, true))
    && (forall y :: Names(named, y) ==> Cared(st, y, true, true))
    && (forall k :: 0 <= k < |st.stack| && st.stack[k].flags.direct ==> st.stack[k].flags.public)
  }

  // A package is either finished and in the list once, or being loaded at one level of the stack.
  ghost predicate Listed(st: State) {
    && (forall i, j :: 0 <= i < j < |st.order| ==> st.order[i] != st.order[j])
    && (forall x :: x in st.order ==> x in st.loaded)
    && (forall k, x :: Loading(st.stack, k, x) ==> x in st.loaded && x !in st.order)
    && (forall j, k, x :: Loading(st.stack, j, x) && Loading(st.stack, k, x) ==> j == k)
    && (forall x :: x in st.loaded ==> x in st.order || exists k :: Loading(st.stack, k, x))
  }

  // What stands in a list behind position i.
  ghost predicate Behind(order: seq<string>, i: int, y: string) {
    0 <= i < |order| && y in order[i + 1..]
  }

  ghost predicate DependencyOrder(repo: Repo, order: seq<string>) {
    forall i, y :: 0 <= i < |order| && Requires(repo, false, order[i], y) ==> Behind(order, i, y)
  }

  // y waits or is being loaded on a level above k.
  ghost predicate Above(stack: seq<Frame>, k: int, y: string) {
    exists j :: k < j && (Waits(stack, j, y) || Loading(stack, j, y))
  }

  // All that a package being loaded requires is finished or on a level above; and all on a level
  // above is below it in the graph.
  ghost predicate Nested(repo: Repo, st: State) {
    && (forall k, x, y :: Loading(st.stack, k, x) && Requires(repo, false, x, y) ==> y in st.order || Above(st.stack, k, y))
    && (forall j, k, x, y :: Loading(st.stack, j, x) && j < k && (Waits(st.stack, k, y) || Loading(st.stack, k, y)) ==> Below(repo, x, y))
  }

  ghost predicate Invariant(repo: Repo, named: seq<PkgSpec>, st: State) {
    && Sound(repo, named, st) && Complete(repo, named, st) && Listed(st)
    && (Acyclic(repo) ==> DependencyOrder(repo, st.order) && Nested(repo, st))
  }

  // ----- The steps -----

  function Top(st: State): Frame
    requires st.stack != []
  {
    st.stack[|st.stack| - 1]
  }

  function WithTop(stack: seq<Frame>, f: Frame): seq<Frame>
    requires stack != []
  {
    stack[|stack| - 1 := f]
  }

  // The package loaded at the top is finished.
  function Finish(st: State): State
    requires st.stack != [] && Top(st).newpkg.Some?
  {
    st.(order := [Top(st).newpkg.value] + st.order, stack := WithTop(st.stack, Top(st).(newpkg := None)))
  }

  // Nothing is left at the top.
  function Pop(st: State): State
    requires st.stack != []
  {
    st.(stack := st.stack[..|st.stack| - 1])
  }

  function Joined(f: Flags, g: Flags): Flags {
    Flags(f.direct || g.direct, f.public || g.public)
  }

  function OldFlags(st: State, y: string): Flags {
    if y in st.loaded then st.loaded[y] else Flags(false, false)
  }

  // The next specification at the top is taken off, its package gets the flags of the level, and
  // more levels may be pushed.
  function Take(st: State, newpkg: Option<string>, pushed: seq<Frame>): State
    requires st.stack != [] && Top(st).specs != []
  {
    var y := Top(st).specs[0].name;
    State(WithTop(st.stack, Top(st).(specs := Top(st).specs[1..], newpkg := newpkg)) + pushed,
          st.loaded[y := Joined(OldFlags(st, y), Top(st).flags)], st.order)
  }

  // A package already loaded, with nothing new about it.
  function Skip(st: State): State
    requires st.stack != [] && Top(st).specs != []
  {
    Take(st, None, [])
  }

  // A package loaded as private turns out to be public: its public requirements are looked at again.
  function Upgrade(st: State, info: PkgInfo): State
    requires st.stack != [] && Top(st).specs != []
  {
    Take(st, None, [Frame(info.requires', None, Flags(false, Top(st).flags.public))])
  }

  function Load(st: State, info: PkgInfo): State
    requires st.stack != [] && Top(st).specs != []
  {
    Take(st, Some(Top(st).specs[0].name),
         [Frame(info.requires', None, Flags(false, Top(st).flags.public)),
          Frame(info.requiresPrivate, None, Flags(false, false))])
  }

  function Start(named: seq<PkgSpec>): State {
    State([Frame(named, None, Flags(true, true))], map[], [])
  }
}
