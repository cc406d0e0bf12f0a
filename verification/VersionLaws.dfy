/** How versions compare, string by string, and which versions a requirement accepts. */
module VersionLaws {
  import opened Text
  import opened VersionOrder
  import opened PkgGraph

  predicate Digits(s: string) {
    s != "" && forall i :: 0 <= i < |s| ==> IsDigit(s[i])
  }

  predicate NoDigitFirst(s: string) {
    s == "" || !IsDigit(s[0])
  }

  /** A version comes after what it begins with. */
  lemma BeginningFirst(s: string, t: string)
    requires s == "" || t == ""
    ensures Compare(s, t) == if s != "" then 1 else if t != "" then -1 else 0
  {
    EndOfTokens(s, t);
  }

  /** Unless both versions go on with a digit, their next characters decide, the smaller one first. */
  lemma NextCharacters(s: string, t: string)
    requires s != "" && t != "" && !(IsDigit(s[0]) && IsDigit(t[0]))
    ensures Compare(s, t) ==
            if s[0] < t[0] then -1 else if s[0] > t[0] then 1 else Compare(s[1..], t[1..])
  {
    hide Tokens;
    NextToken(s);
    NextToken(t);
  }

  lemma {:induction false} RunStops(m: string, s: string)
    requires (forall i :: 0 <= i < |m| ==> IsDigit(m[i])) && NoDigitFirst(s)
    ensures RunLength(m + s) == |m|
    decreases |m|
  {
    if m != "" {
      assert (m + s)[1..] == m[1..] + s;
      RunStops(m[1..], s);
    } else {
      assert m + s == s;
    }
  }

  lemma RunFirst(m: string, s: string)
    requires Digits(m) && NoDigitFirst(s)
    ensures Tokens(m + s) == [Run(m)] + Tokens(s)
  {
    RunStops(m, s);
    NextToken(m + s);
    assert (m + s)[..|m|] == m && (m + s)[|m|..] == s;
  }

  /** If both go on with a number, the longer one comes later, and of two equally long the one of larger
      value; equal numbers leave it to what follows. */
  lemma NextNumbers(m: string, s: string, n: string, t: string)
    requires Digits(m) && Digits(n) && NoDigitFirst(s) && NoDigitFirst(t)
    ensures Compare(m + s, n + t) ==
            if |m| < |n| then -1 else if |m| > |n| then 1
            else if Value(m) < Value(n) then -1 else if Value(m) > Value(n) then 1
            else Compare(s, t)
  {
    hide Tokens, CompareStrings, Value;
    RunFirst(m, s);
    RunFirst(n, t);
    if |m| == |n| {
      SameLengthByValue(m, n);
    }
  }

  // What a requirement means for numbers.
  predicate Satisfies(op: VersOp, v: nat, required: nat) {
    match op
    case AnyVersion => true
    case Less => v < required
    case LessEqual => v <= required
    case EqualTo => v == required
    case GreaterEqual => v >= required
    case Greater => v > required
  }

  /** A version that is a number is accepted exactly if its value stands in the required relation to the
      required one. */
  lemma NumbersAccepted(spec: PkgSpec, version: string)
    requires PlainNumber(version) && PlainNumber(spec.version)
    ensures Accepts(spec, version) <==> Satisfies(spec.op, Value(version), Value(spec.version))
  {
    hide Value, Compare;
    NumbersByValue(version, spec.version);
  }

  /** Of any two versions a requirement for at most, or at least, or exactly the second accepts the first
      exactly if it is not later, not earlier, or the same; and "less" and "greater" are the opposites. */
  lemma OperatorsAgree(name: string, version: string, required: string)
    ensures Accepts(PkgSpec(name, EqualTo, required), version) <==> version == required
    ensures Accepts(PkgSpec(name, Less, required), version) <==> !Accepts(PkgSpec(name, GreaterEqual, required), version)
    ensures Accepts(PkgSpec(name, Greater, required), version) <==> !Accepts(PkgSpec(name, LessEqual, required), version)
    ensures Accepts(PkgSpec(name, Less, required), version) <==> Accepts(PkgSpec(name, Greater, version), required)
    ensures Accepts(PkgSpec(name, LessEqual, required), version) <==>
            Accepts(PkgSpec(name, Less, required), version) || version == required
  {
    hide Compare;
    VersionsAreOrdered(version, required, version);
  }
}
