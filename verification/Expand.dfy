/** Expansion of ${variables} with an explicit stack of pending strings. */
module Expand {
  import opened Common

  type Env = map<string, string>

  // How an expansion ends: with its text, or with the complaint it stops at.
  datatype Expansion = Expanded(text: string) | TooDeep | Undefined(name: string)

  const LEVELS := 127

  // ----- The expansion a string should have -----

  predicate Marks(s: string, i: nat) {
    i + 1 < |s| && s[i] == '$' && (s[i + 1] == '{' || s[i + 1] == '$')
  }

  // The first mark at or after i, or the end of the string.
  function FirstMark(s: string, i: nat): (k: nat)
    requires i <= |s|
    ensures i <= k <= |s| && (k < |s| ==> Marks(s, k))
    ensures forall j :: i <= j < k ==> !Marks(s, j)
    decreases |s| - i
  {
    if i == |s| || Marks(s, i) then i else FirstMark(s, i + 1)
  }

  // Where the name that starts at i ends: before the next brace, or with the string.
  function NameEnd(s: string, i: nat): (k: nat)
    requires i <= |s|
    ensures i <= k <= |s| && (k < |s| ==> s[k] == '}')
    ensures forall j :: i <= j < k ==> s[j] != '}'
    decreases |s| - i
  {
    if i == |s| || s[i] == '}' then i else NameEnd(s, i + 1)
  }

  function TailOf(s: string, end: nat): (tail: string)
    requires end <= |s|
    ensures |tail| <= |s| - end
  {
    if end < |s| then s[end + 1..] else []
  }

  function Lookup(global: Env, env: Env, name: string): Option<string> {
    if name in global then Some(global[name])
    else if name in env then Some(env[name])
    else None
  }

  function Then(a: Expansion, b: Expansion): Expansion {
    match a
    case Expanded(x) => if b.Expanded? then Expanded(x + b.text) else b
    case _ => a
  }

  // The text of a string with every variable replaced by the expansion of its value, at most so
  // many levels deep.
  function Expand(global: Env, env: Env, s: string, levels: nat): Expansion
    decreases levels, |s|
  {
    var i := FirstMark(s, 0);
    if i == |s| then Expanded(s)
    else if s[i + 1] == '$' then Then(Expanded(s[..i + 1]), Expand(global, env, s[i + 2..], levels))
    else if levels == 0 then TooDeep
    else
      var end := NameEnd(s, i + 2);
      match Lookup(global, env, s[i + 2..end])
      case None => Undefined(s[i + 2..end])
      case Some(value) =>
        Then(Expanded(s[..i]), Then(Expand(global, env, value, levels - 1), Expand(global, env, TailOf(s, end), levels)))
  }

  // ----- The strings on the stack -----

  // The pending strings expand from the top of the stack down; each slot is one level deeper.
  function Pending(global: Env, env: Env, stack: seq<string>): Expansion
    requires |stack| <= LEVELS + 1
  {
    if stack == [] then Expanded([])
    else
      Then(Expand(global, env, stack[|stack| - 1], LEVELS + 1 - |stack|), Pending(global, env, stack[..|stack| - 1]))
  }

  // How many strings are taken from the stack to expand one.
  ghost function Steps(global: Env, env: Env, s: string, levels: nat): nat
    decreases levels, |s|
  {
    var i := FirstMark(s, 0);
    if i == |s| then 1
    else if s[i + 1] == '$' then 1 + Steps(global, env, s[i + 2..], levels)
    else if levels == 0 then 1
    else
      var end := NameEnd(s, i + 2);
      match Lookup(global, env, s[i + 2..end])
      case None => 1
      case Some(value) => 1 + Steps(global, env, value, levels - 1) + Steps(global, env, TailOf(s, end), levels)
  }

  ghost function StepsLeft(global: Env, env: Env, stack: seq<string>): nat
    requires |stack| <= LEVELS + 1
  {
    if stack == [] then 0
    else Steps(global, env, stack[|stack| - 1], LEVELS + 1 - |stack|) + StepsLeft(global, env, stack[..|stack| - 1])
  }

  lemma ThenAssociates(a: Expansion, b: Expansion, c: Expansion)
    ensures Then(Then(a, b), c) == Then(a, Then(b, c))
  {
  }

  lemma PushPending(global: Env, env: Env, stack: seq<string>, s: string)
    requires |stack| <= LEVELS
    ensures Pending(global, env, stack + [s]) == Then(Expand(global, env, s, LEVELS - |stack|), Pending(global, env, stack))
    ensures StepsLeft(global, env, stack + [s]) == Steps(global, env, s, LEVELS - |stack|) + StepsLeft(global, env, stack)
  {
    assert (stack + [s])[..|stack|] == stack;
  }

  lemma Printed(out: string, text: string, rest: Expansion)
    ensures Then(Expanded(out), Then(Expanded(text), rest)) == Then(Expanded(out + text), rest)
  {
    match rest
    case Expanded(x) => assert out + (text + x) == out + text + x;
    case _ =>
  }

  // What taking the top string off does, when it holds no mark, an escaped dollar sign or a variable.
  lemma PlainStep(global: Env, env: Env, s: string, levels: nat)
    requires FirstMark(s, 0) == |s|
    ensures Expand(global, env, s, levels) == Expanded(s) && Steps(global, env, s, levels) == 1
  {
  }

  lemma DollarStep(global: Env, env: Env, s: string, levels: nat, i: nat)
    requires i == FirstMark(s, 0) && i < |s| && s[i + 1] == '$'
    ensures Expand(global, env, s, levels) == Then(Expanded(s[..i + 1]), Expand(global, env, s[i + 2..], levels))
    ensures Steps(global, env, s, levels) == 1 + Steps(global, env, s[i + 2..], levels)
  {
  }

  lemma VariableStep(global: Env, env: Env, s: string, levels: nat, i: nat, end: nat, rest: Expansion)
    requires i == FirstMark(s, 0) && i < |s| && s[i + 1] != '$' && levels > 0 && end == NameEnd(s, i + 2)
    ensures match Lookup(global, env, s[i + 2..end])
            case None => Then(Expand(global, env, s, levels), rest) == Undefined(s[i + 2..end])
            case Some(value) =>
              Then(Expand(global, env, s, levels), rest) ==
              Then(Expanded(s[..i]), Then(Expand(global, env, value, levels - 1),
                                          Then(Expand(global, env, TailOf(s, end), levels), rest)))
              && Steps(global, env, s, levels) ==
                 1 + Steps(global, env, value, levels - 1) + Steps(global, env, TailOf(s, end), levels)
  {
    match Lookup(global, env, s[i + 2..end])
    case None =>
    case Some(value) =>
      var a, b, c := Expanded(s[..i]), Expand(global, env, value, levels - 1), Expand(global, env, TailOf(s, end), levels);
      hide Expand, Steps;
      ThenAssociates(a, Then(b, c), rest);
      ThenAssociates(b, c, rest);
  }

  // What is taken off goes to the output, up to the escaped dollar sign or the variable.
  lemma DollarPrinted(global: Env, env: Env, out: string, s: string, levels: nat, i: nat, rest: Expansion)
    requires i == FirstMark(s, 0) && i < |s| && s[i + 1] == '$'
    ensures Then(Expanded(out), Then(Expand(global, env, s, levels), rest)) ==
            Then(Expanded(out + s[..i + 1]), Then(Expand(global, env, s[i + 2..], levels), rest))
    ensures Steps(global, env, s, levels) == 1 + Steps(global, env, s[i + 2..], levels)
  {
    DollarStep(global, env, s, levels, i);
    hide *;
    ThenAssociates(Expanded(s[..i + 1]), Expand(global, env, s[i + 2..], levels), rest);
    Printed(out, s[..i + 1], Then(Expand(global, env, s[i + 2..], levels), rest));
  }

  lemma DeepStep(global: Env, env: Env, s: string)
    requires FirstMark(s, 0) < |s| && s[FirstMark(s, 0) + 1] != '$'
    ensures Expand(global, env, s, 0) == TooDeep
  {
  }

  lemma Fails(out: string, e: Expansion, rest: Expansion)
    requires !e.Expanded?
    ensures Then(Expanded(out), Then(e, rest)) == e && Then(Expanded(out), e) == e
  {
  }

  lemma NothingPending(global: Env, env: Env, a: Expansion)
    ensures Pending(global, env, []) == Expanded([]) && StepsLeft(global, env, []) == 0
    ensures Then(Expanded([]), Then(a, Expanded([]))) == a
  {
    match a
    case Expanded(x) => assert [] + (x + []) == x;
    case _ =>
  }

  lemma NothingMore(out: string)
    ensures Then(Expanded(out), Expanded([])) == Expanded(out)
  {
    assert out + [] == out;
  }

  // ----- The program -----

  method FindMark(s: string) returns (i: nat)
    ensures i == FirstMark(s, 0)
  {
    i := 0;
    while i < |s| - 1
      invariant i <= |s| && FirstMark(s, 0) == FirstMark(s, i)
    {
      if s[i] == '$' && (s[i + 1] == '{' || s[i + 1] == '$') {
        return;
      }
      i := i + 1;
    }
    i := |s|;
  }

  method FindNameEnd(s: string, beg: nat) returns (end: nat)
    requires beg <= |s|
    ensures end == NameEnd(s, beg)
  {
    end := beg;
    while end < |s| && s[end] != '}'
      invariant beg <= end <= |s| && NameEnd(s, beg) == NameEnd(s, end)
    {
      end := end + 1;
    }
  }

  /** The output is exactly the recursive expansion down to 127 levels, or its complaint; the
      stack of 128 strings is never overrun, and the loop always ends. */
  method ExpandString(global: Env, env: Env, str: string) returns (r: Expansion)
    ensures r == Expand(global, env, str, LEVELS)
  {
    hide Expand, Steps, Pending, StepsLeft, Then, FirstMark, NameEnd, TailOf, Lookup;
    var out := "";
    var stack := new string[128](_ => "");
    var top := 0;
    stack[top] := str;
    assert stack[..1] == [] + [str];
    PushPending(global, env, [], str);
    ghost var all := Expand(global, env, str, LEVELS);
    NothingPending(global, env, all);
    while top >= 0
      invariant -1 <= top < 128
      invariant all == Then(Expanded(out), Pending(global, env, stack[..top + 1]))
      decreases StepsLeft(global, env, stack[..top + 1])
    {
      var s := stack[top];
      ghost var below, levels := stack[..top], LEVELS - top;
      ghost var rest := Pending(global, env, below);
      assert stack[..top + 1] == below + [s];
      PushPending(global, env, below, s);
      top := top - 1;
      var i := FindMark(s);
      if i == |s| {
        PlainStep(global, env, s, levels);
        Printed(out, s, rest);
        out := out + s;
      } else if s[i + 1] == '$' {
        DollarPrinted(global, env, out, s, levels, i, rest);
        out := out + s[..i + 1];
        top := top + 1;
        stack[top] := s[i + 2..];
        assert stack[..top + 1] == below + [s[i + 2..]];
        PushPending(global, env, below, s[i + 2..]);
      } else {
        if top >= 126 {
          DeepStep(global, env, s);
          Fails(out, TooDeep, rest);
          return TooDeep;
        }
        var end := FindNameEnd(s, i + 2);
        var tail := TailOf(s, end);
        VariableStep(global, env, s, levels, i, end, rest);
        top := top + 1;
        stack[top] := tail;
        assert stack[..top + 1] == below + [tail];
        PushPending(global, env, below, tail);
        match Lookup(global, env, s[i + 2..end])
        case None =>
          Fails(out, Undefined(s[i + 2..end]), rest);
          return Undefined(s[i + 2..end]);
        case Some(value) =>
          Printed(out, s[..i], Then(Expand(global, env, value, levels - 1), Then(Expand(global, env, tail, levels), rest)));
          out := out + s[..i];
          top := top + 1;
          stack[top] := value;
          assert stack[..top + 1] == below + [tail] + [value];
          PushPending(global, env, below + [tail], value);
      }
    }
    NothingMore(out);
    r := Expanded(out);
  }

  // ----- Which strings have an expansion -----

  // The variables a string names.
  ghost function References(s: string): set<string>
    decreases |s|
  {
    var i := FirstMark(s, 0);
    if i == |s| then {}
    else if s[i + 1] == '$' then References(s[i + 2..])
    else {s[i + 2..NameEnd(s, i + 2)]} + References(TailOf(s, NameEnd(s, i + 2)))
  }

  // The string names the first variable, its value the second, and so on.
  ghost predicate Chain(global: Env, env: Env, s: string, c: seq<string>)
    decreases |c|
  {
    c != [] ==>
      && c[0] in References(s)
      && (|c| > 1 ==> Lookup(global, env, c[0]).Some? && Chain(global, env, Lookup(global, env, c[0]).value, c[1..]))
  }

  // A chain that is no longer than the levels, of variables that are all defined.
  ghost predicate GoodChain(global: Env, env: Env, c: seq<string>, levels: nat) {
    |c| <= levels && forall x :: x in c ==> Lookup(global, env, x).Some?
  }

  lemma {:induction false} ReferenceExpands(global: Env, env: Env, s: string, levels: nat, x: string)
    requires Expand(global, env, s, levels).Expanded? && x in References(s)
    ensures levels > 0 && Lookup(global, env, x).Some?
    ensures Expand(global, env, Lookup(global, env, x).value, levels - 1).Expanded?
    decreases |s|
  {
    var i := FirstMark(s, 0);
    if s[i + 1] == '$' {
      ReferenceExpands(global, env, s[i + 2..], levels, x);
    } else if x != s[i + 2..NameEnd(s, i + 2)] {
      ReferenceExpands(global, env, TailOf(s, NameEnd(s, i + 2)), levels, x);
    }
  }

  lemma {:induction false} ChainExpands(global: Env, env: Env, s: string, levels: nat, c: seq<string>)
    requires Expand(global, env, s, levels).Expanded? && Chain(global, env, s, c)
    ensures GoodChain(global, env, c, levels)
    ensures c != [] ==> Expand(global, env, Lookup(global, env, c[|c| - 1]).value, levels - |c|).Expanded?
    decreases |c|
  {
    hide Expand, References, Lookup;
    if c != [] {
      ReferenceExpands(global, env, s, levels, c[0]);
      if |c| > 1 {
        ChainExpands(global, env, Lookup(global, env, c[0]).value, levels - 1, c[1..]);
        assert c == [c[0]] + c[1..];
      }
    }
  }

  lemma {:induction false} BadChain(global: Env, env: Env, s: string, levels: nat) returns (c: seq<string>)
    requires !Expand(global, env, s, levels).Expanded?
    ensures Chain(global, env, s, c) && !GoodChain(global, env, c, levels)
    decreases levels, |s|
  {
    hide FirstMark, NameEnd, TailOf, Lookup;
    var i := FirstMark(s, 0);
    if s[i + 1] == '$' {
      c := BadChain(global, env, s[i + 2..], levels);
      return;
    }
    var end := NameEnd(s, i + 2);
    var name := s[i + 2..end];
    c := [name];
    var value := Lookup(global, env, name);
    if levels > 0 && value.Some? {
      if Expand(global, env, value.value, levels - 1).Expanded? {
        c := BadChain(global, env, TailOf(s, end), levels);
      } else {
        var d := BadChain(global, env, value.value, levels - 1);
        c := [name] + d;
        assert c[1..] == d;
        assert forall x :: x in d ==> x in c;
      }
    } else {
      assert name in c;
    }
  }

  /** A string expands exactly when every chain of references from it has at most as many variables
      as there are levels, all of them defined. */
  lemma ExpandsIffChainsGood(global: Env, env: Env, s: string, levels: nat)
    ensures Expand(global, env, s, levels).Expanded? <==>
            forall c :: Chain(global, env, s, c) ==> GoodChain(global, env, c, levels)
  {
    hide Expand, Chain, GoodChain;
    if Expand(global, env, s, levels).Expanded? {
      forall c | Chain(global, env, s, c) ensures GoodChain(global, env, c, levels) {
        ChainExpands(global, env, s, levels, c);
      }
    } else {
      var c := BadChain(global, env, s, levels);
    }
  }

  /** A variable whose value leads back to it never expands, however many levels are allowed. */
  lemma {:induction false} CyclesNeverExpand(global: Env, env: Env, x: string, c: seq<string>, levels: nat)
    requires Lookup(global, env, x).Some? && c != [] && c[|c| - 1] == x
    requires Chain(global, env, Lookup(global, env, x).value, c)
    ensures !Expand(global, env, Lookup(global, env, x).value, levels).Expanded?
    decreases levels
  {
    if Expand(global, env, Lookup(global, env, x).value, levels).Expanded? {
      ChainExpands(global, env, Lookup(global, env, x).value, levels, c);
      CyclesNeverExpand(global, env, x, c, levels - |c|);
    }
  }

  /** The number of levels does not show in the text. */
  lemma {:induction false} MoreLevels(global: Env, env: Env, s: string, levels: nat, more: nat)
    requires Expand(global, env, s, levels).Expanded? && levels <= more
    ensures Expand(global, env, s, more) == Expand(global, env, s, levels)
    decreases levels, |s|
  {
    hide FirstMark, NameEnd, TailOf, Lookup;
    var i := FirstMark(s, 0);
    if i < |s| {
      if s[i + 1] == '$' {
        MoreLevels(global, env, s[i + 2..], levels, more);
      } else {
        var end := NameEnd(s, i + 2);
        MoreLevels(global, env, Lookup(global, env, s[i + 2..end]).value, levels - 1, more - 1);
        MoreLevels(global, env, TailOf(s, end), levels, more);
      }
    }
  }
}
