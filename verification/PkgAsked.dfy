/** Who asked for the packages of a traversal, and for which versions. */
module PkgAsked {
  import opened Common
  import opened PkgGraph

  // The specification is one of those named, or a requirement of a package that is needed.
  ghost predicate Asked(repo: Repo, named: seq<PkgSpec>, spec: PkgSpec) {
    spec in named || exists x :: Needed(repo, false, named, x) && RequiredBy(repo, x, spec)
  }

  ghost predicate RequiredBy(repo: Repo, x: string, spec: PkgSpec) {
    x in repo && (spec in repo[x].requires' || spec in repo[x].requiresPrivate)
  }

  // Someone asked for the package, and, if versions are checked, for one it has the version of.
  ghost predicate Vouched(repo: Repo, named: seq<PkgSpec>, checked: bool, y: string) {
    exists spec :: Asked(repo, named, spec) && Suits(repo, checked, spec, y)
  }

  ghost predicate Suits(repo: Repo, checked: bool, spec: PkgSpec, y: string) {
    spec.name == y && y in repo && (checked ==> Accepts(spec, repo[y].version))
  }

  ghost predicate Lists(stack: seq<Frame>, k: int, spec: PkgSpec) {
    0 <= k < |stack| && spec in stack[k].specs
  }

  // Whatever waits was asked for, and for whatever is loaded some specification vouches.
  ghost predicate Heard(repo: Repo, named: seq<PkgSpec>, checked: bool, st: State) {
    && (forall k, spec :: Lists(st.stack, k, spec) ==> Asked(repo, named, spec))
    && (forall y :: y in st.loaded ==> Vouched(repo, named, checked, y))
  }

  lemma StartHeard(repo: Repo, named: seq<PkgSpec>, checked: bool)
    ensures Heard(repo, named, checked, Start(named))
  {
  }

  lemma FinishHeard(repo: Repo, named: seq<PkgSpec>, checked: bool, st: State)
    requires st.stack != [] && Top(st).newpkg.Some? && Heard(repo, named, checked, st)
    ensures Heard(repo, named, checked, Finish(st))
  {
    hide Asked, Vouched;
    forall k, spec | Lists(Finish(st).stack, k, spec) ensures Asked(repo, named, spec) {
      assert Lists(st.stack, k, spec);
    }
  }

  lemma PopHeard(repo: Repo, named: seq<PkgSpec>, checked: bool, st: State)
    requires st.stack != [] && Heard(repo, named, checked, st)
    ensures Heard(repo, named, checked, Pop(st))
  {
    hide Asked, Vouched;
    forall k, spec | Lists(Pop(st).stack, k, spec) ensures Asked(repo, named, spec) {
      assert Lists(st.stack, k, spec);
    }
  }

  lemma TopIsAsked(repo: Repo, named: seq<PkgSpec>, checked: bool, st: State)
    requires st.stack != [] && Top(st).specs != [] && Heard(repo, named, checked, st)
    ensures Asked(repo, named, Top(st).specs[0])
  {
    hide Asked, Vouched;
    assert Lists(st.stack, |st.stack| - 1, Top(st).specs[0]);
  }

  // The levels pushed hold only requirements of the package.
  ghost predicate PushedBy(repo: Repo, y: string, pushed: seq<Frame>) {
    forall i, spec :: Lists(pushed, i, spec) ==> RequiredBy(repo, y, spec)
  }

  lemma TakeHeard(repo: Repo, named: seq<PkgSpec>, checked: bool, st: State, newpkg: Option<string>, pushed: seq<Frame>)
    requires st.stack != [] && Top(st).specs != [] && Heard(repo, named, checked, st)
    requires var spec := Top(st).specs[0];
             && Needed(repo, false, named, spec.name) && PushedBy(repo, spec.name, pushed)
             && (spec.name !in st.loaded ==> Suits(repo, checked, spec, spec.name))
    ensures Heard(repo, named, checked, Take(st, newpkg, pushed))
  {
    hide Needed, RequiredBy, Suits;
    var first, n := Top(st).specs[0], |st.stack|;
    var st' := Take(st, newpkg, pushed);
    TopIsAsked(repo, named, checked, st);
    forall k, spec | Lists(st'.stack, k, spec) ensures Asked(repo, named, spec) {
      if k < n {
        assert Lists(st.stack, k, spec);
      } else {
        assert st'.stack[k] == pushed[k - n];
        assert Lists(pushed, k - n, spec);
      }
    }
  }

  lemma LoadHeard(repo: Repo, named: seq<PkgSpec>, checked: bool, st: State)
    requires st.stack != [] && Top(st).specs != [] && Heard(repo, named, checked, st)
    requires var spec := Top(st).specs[0];
             && spec.name !in st.loaded && spec.name in repo && Needed(repo, false, named, spec.name)
             && Suits(repo, checked, spec, spec.name)
    ensures Heard(repo, named, checked, Load(st, repo[Top(st).specs[0].name]))
  {
    hide Heard, Take, Needed, Suits;
    var y := Top(st).specs[0].name;
    TakeHeard(repo, named, checked, st, Some(y), [Frame(repo[y].requires', None, Flags(false, Top(st).flags.public)),
                                                  Frame(repo[y].requiresPrivate, None, Flags(false, false))]);
  }

  lemma UpgradeHeard(repo: Repo, named: seq<PkgSpec>, checked: bool, st: State)
    requires st.stack != [] && Top(st).specs != [] && Heard(repo, named, checked, st)
    requires var y := Top(st).specs[0].name; y in st.loaded && y in repo && Needed(repo, false, named, y)
    ensures Heard(repo, named, checked, Upgrade(st, repo[Top(st).specs[0].name]))
  {
    hide Heard, Take, Needed, Suits;
    var y := Top(st).specs[0].name;
    TakeHeard(repo, named, checked, st, None, [Frame(repo[y].requires', None, Flags(false, Top(st).flags.public))]);
  }
}
