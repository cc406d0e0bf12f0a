/** Starting a thread: the creator lends the child a record on its own stack, and must not return
    before the child is done with it. */
module Handshake {
  import opened Common

  datatype Owner = Free | Creator | Child

  // The record on the creator's stack; the condition variable is the set of its sleepers, which is
  // the creator or nobody.
  datatype Spawn = Spawn(fn: int, arg: int, lock: Owner, consumed: bool)

  datatype CreatorAt =
    | Creating
    | Acquiring
    | Testing
    | Sleeping
    | Reacquiring
    | Releasing
    | Returning
    | Created
    | Failed

  datatype ChildAt =
    | Unborn
    | ReadingFn
    | ReadingArg(fn: int)
    | Locking(fn: int, arg: int)
    | Consuming(fn: int, arg: int)
    | Waking(fn: int, arg: int)
    | Unlocking(fn: int, arg: int)
    | Running(fn: int, arg: int)
    | Faulted

  // The record is gone once the creator has returned.
  datatype State = State(creator: CreatorAt, child: ChildAt, spawn: Option<Spawn>)

  // Who moves; a sleeper may also wake for no reason.
  datatype Move = ByCreator | ByChild | Spurious

  function Start(fn: int, arg: int): State {
    State(Creating, Unborn, Some(Spawn(fn, arg, Free, false)))
  }

  ghost predicate CreatorMoves(s: State, s': State) {
    s.spawn.Some? &&
    var sp := s.spawn.value;
    match s.creator
    case Creating =>
      || s' == s.(creator := Failed, spawn := None)
      || s' == s.(creator := Acquiring, child := ReadingFn)
    case Acquiring => sp.lock == Free && s' == s.(creator := Testing, spawn := Some(sp.(lock := Creator)))
    case Testing =>
      if sp.consumed then s' == s.(creator := Releasing)
      else s' == s.(creator := Sleeping, spawn := Some(sp.(lock := Free)))
    case Sleeping => false
    case Reacquiring => sp.lock == Free && s' == s.(creator := Testing, spawn := Some(sp.(lock := Creator)))
    case Releasing => s' == s.(creator := Returning, spawn := Some(sp.(lock := Free)))
    case Returning => s' == s.(creator := Created, spawn := None)
    case Created => false
    case Failed => false
  }

  // A child that touches the record after it is gone faults.
  ghost predicate ChildMoves(s: State, s': State) {
    match s.child
    case Unborn => false
    case Running(_, _) => false
    case Faulted => false
    case _ => if s.spawn == None then s' == s.(child := Faulted) else ChildTouches(s, s.spawn.value, s')
  }

  ghost predicate ChildTouches(s: State, sp: Spawn, s': State) {
    match s.child
    case ReadingFn => s' == s.(child := ReadingArg(sp.fn))
    case ReadingArg(fn) => s' == s.(child := Locking(fn, sp.arg))
    case Locking(fn, arg) => sp.lock == Free && s' == s.(child := Consuming(fn, arg), spawn := Some(sp.(lock := Child)))
    case Consuming(fn, arg) => s' == s.(child := Waking(fn, arg), spawn := Some(sp.(consumed := true)))
    case Waking(fn, arg) =>
      s' == s.(child := Unlocking(fn, arg), creator := if s.creator == Sleeping then Reacquiring else s.creator)
    case Unlocking(fn, arg) => s' == s.(child := Running(fn, arg), spawn := Some(sp.(lock := Free)))
    case _ => false
  }

  ghost predicate Moves(m: Move, s: State, s': State) {
    match m
    case ByCreator => CreatorMoves(s, s')
    case ByChild => ChildMoves(s, s')
    case Spurious => s.creator == Sleeping && s' == s.(creator := Reacquiring)
  }

  // ----- What holds in every state that is reached -----

  predicate Unlocked(c: ChildAt) {
    !c.Consuming? && !c.Waking? && !c.Unlocking?
  }

  ghost predicate Took(c: ChildAt, fn: int, arg: int) {
    match c
    case ReadingArg(f) => f == fn
    case Locking(f, a) => f == fn && a == arg
    case Consuming(f, a) => f == fn && a == arg
    case Waking(f, a) => f == fn && a == arg
    case Unlocking(f, a) => f == fn && a == arg
    case Running(f, a) => f == fn && a == arg
    case _ => true
  }

  ghost predicate Invariant(fn: int, arg: int, s: State) {
    && s.child != Faulted && Took(s.child, fn, arg)
    && (s.child == Unborn <==> s.creator == Creating || s.creator == Failed)
    && (s.spawn == None <==> s.creator == Created || s.creator == Failed)
    && (s.creator == Releasing || s.creator == Returning || s.creator == Created ==> s.child.Running?)
    && (s.creator == Sleeping ==> !s.child.Unlocking? && !s.child.Running?)
    && (s.spawn.Some? ==>
          var sp := s.spawn.value;
          && sp.fn == fn && sp.arg == arg
          && (sp.lock == Creator <==> s.creator == Testing || s.creator == Releasing)
          && (sp.lock == Child <==> !Unlocked(s.child))
          && (sp.consumed <==> s.child.Waking? || s.child.Unlocking? || s.child.Running?))
  }

  lemma MovesKeep(fn: int, arg: int, m: Move, s: State, s': State)
    requires Invariant(fn, arg, s) && Moves(m, s, s')
    ensures Invariant(fn, arg, s')
  {
  }

  // A run is what its moves lead through.
  ghost predicate Run(fn: int, arg: int, moves: seq<Move>, states: seq<State>) {
    && |states| == |moves| + 1 && states[0] == Start(fn, arg)
    && forall i, j :: 0 <= i < |moves| && j == i + 1 ==> Moves(moves[i], states[i], states[j])
  }

  lemma {:induction false} RunKeeps(fn: int, arg: int, moves: seq<Move>, states: seq<State>, k: nat)
    requires Run(fn, arg, moves, states) && k < |states|
    ensures Invariant(fn, arg, states[k])
    decreases k
  {
    if k > 0 {
      RunKeeps(fn, arg, moves, states, k - 1);
      MovesKeep(fn, arg, moves[k - 1], states[k - 1], states[k]);
    }
  }

  /** In every run, whatever the interleaving and however often the creator wakes for nothing: the
      child never touches the record after it is gone; when it runs, it runs the function it was
      given on the argument it was given; and the creator returns success only once the child is
      done with the record. */
  lemma RunsAreSafe(fn: int, arg: int, moves: seq<Move>, states: seq<State>)
    requires Run(fn, arg, moves, states)
    ensures var s := states[|moves|];
            && s.child != Faulted
            && (s.child.Running? ==> s.child == Running(fn, arg))
            && (s.creator == Created ==> s.child == Running(fn, arg))
            && (s.creator == Failed ==> s.child == Unborn)
            && !(s.spawn.Some? && s.spawn.value.lock == Creator && !Unlocked(s.child))
  {
    RunKeeps(fn, arg, moves, states, |moves|);
  }

  // ----- It always gets there -----

  predicate Returned(s: State) {
    s.creator == Created || s.creator == Failed
  }

  /** No state that is reached is stuck before the creator has returned: someone can move without a
      spurious wakeup. */
  lemma NeverStuck(fn: int, arg: int, moves: seq<Move>, states: seq<State>) returns (m: Move, s': State)
    requires Run(fn, arg, moves, states) && !Returned(states[|moves|])
    ensures m != Spurious && Moves(m, states[|moves|], s')
  {
    var s := states[|moves|];
    RunKeeps(fn, arg, moves, states, |moves|);
    var sp := s.spawn.value;
    match s.creator
    case Creating => m, s' := ByCreator, s.(creator := Acquiring, child := ReadingFn);
    case Testing =>
      m, s' := ByCreator, if sp.consumed then s.(creator := Releasing) else s.(creator := Sleeping, spawn := Some(sp.(lock := Free)));
    case Releasing => m, s' := ByCreator, s.(creator := Returning, spawn := Some(sp.(lock := Free)));
    case Returning => m, s' := ByCreator, s.(creator := Created, spawn := None);
    case _ =>
      // The creator waits for the lock or sleeps.
      if s.child.Running? {
        m, s' := ByCreator, s.(creator := Testing, spawn := Some(sp.(lock := Creator)));
      } else {
        m, s' := ByChild, ChildNext(s, sp);
      }
  }

  function ChildNext(s: State, sp: Spawn): State {
    match s.child
    case ReadingFn => s.(child := ReadingArg(sp.fn))
    case ReadingArg(fn) => s.(child := Locking(fn, sp.arg))
    case Locking(fn, arg) => s.(child := Consuming(fn, arg), spawn := Some(sp.(lock := Child)))
    case Consuming(fn, arg) => s.(child := Waking(fn, arg), spawn := Some(sp.(consumed := true)))
    case Waking(fn, arg) => s.(child := Unlocking(fn, arg), creator := if s.creator == Sleeping then Reacquiring else s.creator)
    case Unlocking(fn, arg) => s.(child := Running(fn, arg), spawn := Some(sp.(lock := Free)))
    case _ => s
  }

  function ChildLeft(c: ChildAt): nat {
    match c
    case Unborn => 6
    case ReadingFn => 6
    case ReadingArg(_) => 5
    case Locking(_, _) => 4
    case Consuming(_, _) => 3
    case Waking(_, _) => 2
    case Unlocking(_, _) => 1
    case Running(_, _) => 0
    case Faulted => 0
  }

  function CreatorLeft(c: CreatorAt): nat {
    match c
    case Creating => 6
    case Acquiring => 5
    case Reacquiring => 5
    case Testing => 4
    case Sleeping => 0
    case Releasing => 3
    case Returning => 2
    case Created => 0
    case Failed => 0
  }

  // Bounds the moves left; only a spurious wakeup can raise it, by 5.
  function Left(s: State): nat {
    6 * ChildLeft(s.child) + CreatorLeft(s.creator)
  }

  function SpuriousIn(moves: seq<Move>): nat {
    if moves == [] then 0 else SpuriousIn(moves[..|moves| - 1]) + if moves[|moves| - 1] == Spurious then 1 else 0
  }

  lemma MovesLower(fn: int, arg: int, m: Move, s: State, s': State)
    requires Invariant(fn, arg, s) && Moves(m, s, s')
    ensures if m == Spurious then Left(s') <= Left(s) + 5 else Left(s') < Left(s)
  {
  }

  lemma {:induction false} LeftAfter(fn: int, arg: int, moves: seq<Move>, states: seq<State>)
    requires Run(fn, arg, moves, states)
    ensures |moves| + Left(states[|moves|]) <= 42 + 6 * SpuriousIn(moves)
    decreases |moves|
  {
    if moves != [] {
      var n := |moves| - 1;
      LeftAfter(fn, arg, moves[..n], states[..n + 1]);
      RunKeeps(fn, arg, moves, states, n);
      MovesLower(fn, arg, moves[n], states[n], states[n + 1]);
    }
  }

  /** The handshake ends: a run with so many spurious wakeups has at most so many moves in all, and
      one that cannot go on without another spurious wakeup has the creator returned. */
  lemma RunsEnd(fn: int, arg: int, moves: seq<Move>, states: seq<State>)
    requires Run(fn, arg, moves, states)
    ensures |moves| <= 42 + 6 * SpuriousIn(moves)
    ensures (forall m, s' :: Moves(m, states[|moves|], s') ==> m == Spurious) ==> Returned(states[|moves|])
  {
    LeftAfter(fn, arg, moves, states);
    if !Returned(states[|moves|]) {
      var m, s' := NeverStuck(fn, arg, moves, states);
    }
  }
}
