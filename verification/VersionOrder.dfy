/** The order of package versions: single characters and runs of digits, compared from the left. */
module VersionOrder {
  import opened Text

  datatype Token = Single(c: char) | Run(digits: string)

  function RunLength(s: string): (n: nat)
    ensures n <= |s|
  {
    if s == [] || !IsDigit(s[0]) then 0 else 1 + RunLength(s[1..])
  }

  // A version as single non-digits and maximal runs of digits.
  function Tokens(s: string): seq<Token>
    decreases |s|
  {
    if s == [] then []
    else if IsDigit(s[0]) then [Run(s[..RunLength(s)])] + Tokens(s[RunLength(s)..])
    else [Single(s[0])] + Tokens(s[1..])
  }

  function CompareChars(a: char, b: char): int {
    if a < b then -1 else if a > b then 1 else 0
  }

  // From the left; a proper prefix comes first.
  function CompareStrings(s: string, t: string): int {
    if s == [] || t == [] then CompareLengths(|s|, |t|)
    else if s[0] != t[0] then CompareChars(s[0], t[0])
    else CompareStrings(s[1..], t[1..])
  }

  function CompareLengths(m: nat, n: nat): int {
    if m < n then -1 else if m > n then 1 else 0
  }

  // Runs compare by length, then digit by digit; other tokens by their first character.
  function CompareTokens(x: Token, y: Token): int {
    match (x, y)
    case (Single(a), Single(b)) => CompareChars(a, b)
    case (Run(s), Run(t)) => if |s| != |t| then CompareLengths(|s|, |t|) else CompareStrings(s, t)
    case (Single(a), Run(t)) => if t == [] || a > t[0] then 1 else -1
    case (Run(s), Single(b)) => if s == [] || s[0] < b then -1 else 1
  }

  function CompareAll(xs: seq<Token>, ys: seq<Token>): int {
    if xs == [] || ys == [] then CompareLengths(|xs|, |ys|)
    else if CompareTokens(xs[0], ys[0]) != 0 then CompareTokens(xs[0], ys[0])
    else CompareAll(xs[1..], ys[1..])
  }

  function Compare(va: string, vb: string): int {
    CompareAll(Tokens(va), Tokens(vb))
  }

  // ----- The program -----

  method SplitDigits(s: string) returns (head: string, tail: string)
    ensures head == s[..RunLength(s)] && tail == s[RunLength(s)..]
  {
    var len := 0;
    while len < |s| && IsDigit(s[len])
      invariant len <= |s| && RunLength(s) == len + RunLength(s[len..])
    {
      assert s[len..][1..] == s[len + 1..];
      len := len + 1;
    }
    head, tail := s[..len], s[len..];
  }

  // Two runs of the same length.
  method CompareRuns(s: string, t: string) returns (r: int)
    requires |s| == |t|
    ensures r == CompareStrings(s, t)
  {
    var i := 0;
    while i < |s|
      invariant i <= |s| && CompareStrings(s, t) == CompareStrings(s[i..], t[i..])
    {
      assert s[i..][1..] == s[i + 1..] && t[i..][1..] == t[i + 1..];
      if s[i] < t[i] {
        return -1;
      } else if s[i] > t[i] {
        return 1;
      }
      i := i + 1;
    }
    r := 0;
  }

  /** Compares two versions: -1, 0 or 1. */
  method CompareVersions(versionA: string, versionB: string) returns (r: int)
    ensures r == Compare(versionA, versionB)
  {
    hide CompareStrings, RunLength;
    var va, vb := versionA, versionB;
    var i := 0;
    assert va[0..] == va && vb[0..] == vb;
    while i < |va| && i < |vb|
      invariant i <= |va| && i <= |vb|
      invariant Compare(versionA, versionB) == Compare(va[i..], vb[i..])
      decreases |va| - i
    {
      var a, b := va[i], vb[i];
      NextToken(va[i..]);
      NextToken(vb[i..]);
      assert va[i..][1..] == va[i + 1..] && vb[i..][1..] == vb[i + 1..];
      if !IsDigit(a) || !IsDigit(b) {
        if a < b {
          return -1;
        } else if a > b {
          return 1;
        }
        i := i + 1;
      } else {
        var headA, tailA := SplitDigits(va[i..]);
        var headB, tailB := SplitDigits(vb[i..]);
        if |headA| < |headB| {
          return -1;
        } else if |headA| > |headB| {
          return 1;
        }
        r := CompareRuns(headA, headB);
        if r != 0 {
          return;
        }
        va, vb := tailA, tailB;
        i := 0;
        assert va[0..] == va && vb[0..] == vb;
      }
    }
    EndOfTokens(va[i..], vb[i..]);
    if |va| < |vb| {
      r := -1;
    } else if |va| > |vb| {
      r := 1;
    } else {
      r := 0;
    }
  }

  lemma NextToken(s: string)
    requires s != []
    ensures Tokens(s) == if IsDigit(s[0]) then [Run(s[..RunLength(s)])] + Tokens(s[RunLength(s)..])
                         else [Single(s[0])] + Tokens(s[1..])
    ensures IsDigit(s[0]) ==> 0 < RunLength(s) && s[..RunLength(s)][0] == s[0]
  {
  }

  lemma EndOfTokens(s: string, t: string)
    requires s == [] || t == []
    ensures Compare(s, t) == CompareLengths(|s|, |t|)
  {
    if s != [] {
      NextToken(s);
    }
    if t != [] {
      NextToken(t);
    }
  }

  // ----- A total order -----

  lemma {:induction false} StringsOpposite(s: string, t: string)
    ensures CompareStrings(t, s) == -CompareStrings(s, t)
  {
    if s != [] && t != [] {
      StringsOpposite(s[1..], t[1..]);
    }
  }

  lemma TokensOpposite(x: Token, y: Token)
    requires ProperToken(x) && ProperToken(y)
    ensures CompareTokens(y, x) == -CompareTokens(x, y)
  {
    if x.Run? && y.Run? {
      StringsOpposite(x.digits, y.digits);
    }
  }

  // Runs are not empty and hold digits; single characters are no digits.
  ghost predicate ProperToken(x: Token) {
    match x
    case Single(c) => !IsDigit(c)
    case Run(s) => s != [] && forall i :: 0 <= i < |s| ==> IsDigit(s[i])
  }

  ghost predicate Proper(xs: seq<Token>) {
    forall i :: 0 <= i < |xs| ==> ProperToken(xs[i])
  }

  lemma {:induction false} RunIsDigits(s: string)
    ensures forall i :: 0 <= i < RunLength(s) ==> IsDigit(s[i])
  {
    if s != [] && IsDigit(s[0]) {
      RunIsDigits(s[1..]);
      assert forall i :: 0 < i < RunLength(s) ==> s[i] == s[1..][i - 1];
    }
  }

  lemma {:induction false} TokensAreProper(s: string)
    ensures Proper(Tokens(s))
    decreases |s|
  {
    if s != [] {
      NextToken(s);
      if IsDigit(s[0]) {
        RunIsDigits(s);
        TokensAreProper(s[RunLength(s)..]);
      } else {
        TokensAreProper(s[1..]);
      }
    }
  }

  lemma {:induction false} AllOpposite(xs: seq<Token>, ys: seq<Token>)
    requires Proper(xs) && Proper(ys)
    ensures CompareAll(ys, xs) == -CompareAll(xs, ys)
    decreases |xs|
  {
    if xs != [] && ys != [] {
      TokensOpposite(xs[0], ys[0]);
      AllOpposite(xs[1..], ys[1..]);
    }
  }

  lemma {:induction false} SameStrings(s: string, t: string)
    ensures CompareStrings(s, t) == 0 <==> s == t
  {
    if s != [] && t != [] {
      SameStrings(s[1..], t[1..]);
      assert s == [s[0]] + s[1..] && t == [t[0]] + t[1..];
    }
  }

  lemma SameTokens(x: Token, y: Token)
    requires ProperToken(x) && ProperToken(y)
    ensures CompareTokens(x, y) == 0 <==> x == y
  {
    if x.Run? && y.Run? {
      SameStrings(x.digits, y.digits);
    }
  }

  lemma {:induction false} SameAll(xs: seq<Token>, ys: seq<Token>)
    requires Proper(xs) && Proper(ys)
    ensures CompareAll(xs, ys) == 0 <==> xs == ys
    decreases |xs|
  {
    if xs != [] && ys != [] {
      SameTokens(xs[0], ys[0]);
      SameAll(xs[1..], ys[1..]);
      assert xs == [xs[0]] + xs[1..] && ys == [ys[0]] + ys[1..];
    }
  }

  // The string a token list spells.
  function Spelled(xs: seq<Token>): string {
    if xs == [] then ""
    else (match xs[0] case Single(c) => [c] case Run(s) => s) + Spelled(xs[1..])
  }

  lemma {:induction false} SpelledTokens(s: string)
    ensures Spelled(Tokens(s)) == s
    decreases |s|
  {
    if s != [] {
      NextToken(s);
      var n := if IsDigit(s[0]) then RunLength(s) else 1;
      SpelledTokens(s[n..]);
      assert Tokens(s)[1..] == Tokens(s[n..]);
      assert s == s[..n] + s[n..];
    }
  }

  lemma {:induction false} StringsTransitive(s: string, t: string, u: string)
    requires CompareStrings(s, t) <= 0 && CompareStrings(t, u) <= 0
    ensures CompareStrings(s, u) <= 0
  {
    if s != [] && t != [] && u != [] {
      if s[0] == t[0] == u[0] {
        StringsTransitive(s[1..], t[1..], u[1..]);
      }
    }
  }

  lemma TokensTransitive(x: Token, y: Token, z: Token)
    requires ProperToken(x) && ProperToken(y) && ProperToken(z)
    requires CompareTokens(x, y) <= 0 && CompareTokens(y, z) <= 0
    ensures CompareTokens(x, z) <= 0
  {
    if x.Run? && y.Run? && z.Run? && |x.digits| == |y.digits| == |z.digits| {
      StringsTransitive(x.digits, y.digits, z.digits);
    }
  }

  lemma {:induction false} AllTransitive(xs: seq<Token>, ys: seq<Token>, zs: seq<Token>)
    requires Proper(xs) && Proper(ys) && Proper(zs)
    requires CompareAll(xs, ys) <= 0 && CompareAll(ys, zs) <= 0
    ensures CompareAll(xs, zs) <= 0
    decreases |xs|
  {
    if xs != [] && ys != [] && zs != [] {
      var x, y, z := xs[0], ys[0], zs[0];
      hide CompareTokens;
      SameTokens(x, y);
      SameTokens(y, z);
      SameTokens(x, z);
      TokensTransitive(x, y, z);
      if x == y == z {
        AllTransitive(xs[1..], ys[1..], zs[1..]);
      } else if x == z {
        TokensOpposite(x, y);
      }
    }
  }

  /** Comparing versions is a total order on all strings: opposite arguments give opposite results,
      only identical versions are equal, and it is transitive. */
  lemma VersionsAreOrdered(a: string, b: string, c: string)
    ensures -1 <= Compare(a, b) <= 1 && Compare(b, a) == -Compare(a, b)
    ensures Compare(a, b) == 0 <==> a == b
    ensures Compare(a, b) <= 0 && Compare(b, c) <= 0 ==> Compare(a, c) <= 0
  {
    hide CompareAll, Tokens, Spelled, Proper;
    TokensAreProper(a);
    TokensAreProper(b);
    TokensAreProper(c);
    AllOpposite(Tokens(a), Tokens(b));
    OneOfThree(Tokens(a), Tokens(b));
    SameAll(Tokens(a), Tokens(b));
    SpelledTokens(a);
    SpelledTokens(b);
    if Compare(a, b) <= 0 && Compare(b, c) <= 0 {
      AllTransitive(Tokens(a), Tokens(b), Tokens(c));
    }
  }

  lemma {:induction false} OneOfThree(xs: seq<Token>, ys: seq<Token>)
    ensures -1 <= CompareAll(xs, ys) <= 1
  {
    if xs != [] && ys != [] {
      if xs[0].Run? && ys[0].Run? {
        StringOneOfThree(xs[0].digits, ys[0].digits);
      }
      OneOfThree(xs[1..], ys[1..]);
    }
  }

  lemma {:induction false} StringOneOfThree(s: string, t: string)
    ensures -1 <= CompareStrings(s, t) <= 1
  {
    if s != [] && t != [] {
      StringOneOfThree(s[1..], t[1..]);
    }
  }

  // ----- Numbers -----

  ghost predicate PlainNumber(s: string) {
    s != [] && s[0] != '0' && forall i :: 0 <= i < |s| ==> IsDigit(s[i])
  }

  function Power10(n: nat): nat {
    if n == 0 then 1 else 10 * Power10(n - 1)
  }

  function Value(s: string): nat
    requires forall i :: 0 <= i < |s| ==> IsDigit(s[i])
  {
    if s == [] then 0 else DigitValue(s[0]) * Power10(|s| - 1) + Value(s[1..])
  }

  lemma {:induction false} ValueBelowPower(s: string)
    requires forall i :: 0 <= i < |s| ==> IsDigit(s[i])
    ensures Value(s) < Power10(|s|)
  {
    if s != [] {
      ValueBelowPower(s[1..]);
      HigherDigitWins(DigitValue(s[0]), 10, Power10(|s| - 1), Value(s[1..]), 0);
    }
  }

  lemma {:induction false} SameLengthByValue(s: string, t: string)
    requires |s| == |t|
    requires forall i :: 0 <= i < |s| ==> IsDigit(s[i]) && IsDigit(t[i])
    ensures CompareStrings(s, t) == CompareLengths(Value(s), Value(t))
  {
    if s != [] {
      SameLengthByValue(s[1..], t[1..]);
      ValueBelowPower(s[1..]);
      ValueBelowPower(t[1..]);
      HigherDigitWins(DigitValue(s[0]), DigitValue(t[0]), Power10(|s| - 1), Value(s[1..]), Value(t[1..]));
    }
  }

  lemma HigherDigitWins(d: nat, e: nat, p: nat, v: nat, w: nat)
    requires v < p && w < p
    ensures d < e ==> d * p + v < e * p + w
    ensures d > e ==> d * p + v > e * p + w
    ensures d == e ==> d * p == e * p
  {
    if d < e {
      assert (d + 1) * p <= e * p;
    } else if e < d {
      assert (e + 1) * p <= d * p;
    }
  }

  lemma {:induction false} PowerGrows(m: nat, n: nat)
    requires m <= n
    ensures 0 < Power10(m) <= Power10(n)
  {
    if m < n {
      PowerGrows(m, n - 1);
    } else if n > 0 {
      PowerGrows(m - 1, n - 1);
    }
  }

  lemma FirstDigitCounts(t: string)
    requires PlainNumber(t)
    ensures Value(t) >= Power10(|t| - 1)
  {
    hide Power10;
    var d, p := DigitValue(t[0]), Power10(|t| - 1);
    assert d >= 1;
    assert d * p >= 1 * p;
  }

  lemma LongerIsLarger(s: string, t: string)
    requires PlainNumber(s) && PlainNumber(t) && |s| < |t|
    ensures Value(s) < Value(t)
  {
    hide Value, Power10;
    ValueBelowPower(s);
    PowerGrows(|s|, |t| - 1);
    FirstDigitCounts(t);
  }

  /** Two numbers without leading zeros are ordered by value, however long they are. */
  lemma NumbersByValue(s: string, t: string)
    requires PlainNumber(s) && PlainNumber(t)
    ensures Compare(s, t) == CompareLengths(Value(s), Value(t))
  {
    OneRun(s);
    OneRun(t);
    hide Value, Power10, CompareStrings;
    assert [Run(s)][1..] == [] && [Run(t)][1..] == [];
    assert CompareAll([], []) == 0;
    if |s| == |t| {
      SameLengthByValue(s, t);
    } else if |s| < |t| {
      LongerIsLarger(s, t);
    } else {
      LongerIsLarger(t, s);
    }
  }

  lemma OneRun(s: string)
    requires PlainNumber(s)
    ensures Tokens(s) == [Run(s)]
  {
    AllOneRun(s);
    NextToken(s);
    assert s[|s|..] == [] && s[..|s|] == s;
  }

  lemma {:induction false} AllOneRun(s: string)
    requires forall i :: 0 <= i < |s| ==> IsDigit(s[i])
    ensures RunLength(s) == |s|
  {
    if s != [] {
      AllOneRun(s[1..]);
    }
  }
}
