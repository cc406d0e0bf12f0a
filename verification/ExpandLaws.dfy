/** Which text an expansion gives, string by string. */
module ExpandLaws {
  import opened Expansions = Expand

  // No dollar sign is followed by another or by an opening brace.
  predicate Unmarked(s: string) {
    forall i :: 0 <= i < |s| - 1 && s[i] == '$' ==> s[i + 1] != '$' && s[i + 1] != '{'
  }

  // The same, and what follows makes no mark with the last character.
  predicate Closed(s: string) {
    Unmarked(s) && (s != "" ==> s[|s| - 1] != '$')
  }

  predicate Bound(global: Env, env: Env, x: string) {
    x in global || x in env
  }

  // A global binding goes before that of the package.
  function ValueOf(global: Env, env: Env, x: string): string
    requires Bound(global, env, x)
  {
    if x in global then global[x] else env[x]
  }

  lemma {:induction false} NoMarkBefore(s: string, i: nat, k: nat)
    requires i <= k <= |s| && forall j :: i <= j < k ==> !Marks(s, j)
    requires k == |s| || Marks(s, k)
    ensures FirstMark(s, i) == k
    decreases k - i
  {
    if i < k {
      NoMarkBefore(s, i + 1, k);
    }
  }

  lemma {:induction false} NameEndsAt(s: string, i: nat, k: nat)
    requires i <= k <= |s| && forall j :: i <= j < k ==> s[j] != '}'
    requires k == |s| || s[k] == '}'
    ensures NameEnd(s, i) == k
    decreases k - i
  {
    if i < k {
      NameEndsAt(s, i + 1, k);
    }
  }

  // The mark behind a closed text is the first.
  lemma MarkBehind(s: string, c: char, rest: string)
    requires Closed(s) && (c == '{' || c == '$')
    ensures var text := s + ['$', c] + rest;
            && FirstMark(text, 0) == |s| < |text| - 1 && text[|s| + 1] == c
            && text[..|s|] == s && text[|s| + 2..] == rest && text[..|s| + 1] == s + "$"
  {
    var text := s + ['$', c] + rest;
    assert forall j :: 0 <= j < |s| ==> text[j] == s[j];
    assert Marks(text, |s|);
    NoMarkBefore(text, 0, |s|);
  }

  /** A text without marks stays as it is. */
  lemma PlainText(global: Env, env: Env, s: string, levels: nat)
    requires Unmarked(s)
    ensures Expand(global, env, s, levels) == Expanded(s)
  {
    NoMarkBefore(s, 0, |s|);
  }

  /** Two dollar signs give one. */
  lemma DollarText(global: Env, env: Env, s: string, t: string, levels: nat)
    requires Closed(s)
    ensures var rest := Expand(global, env, t, levels);
            Expand(global, env, s + "$$" + t, levels) == if rest.Expanded? then Expanded(s + "$" + rest.text) else rest
  {
    hide FirstMark, NameEnd;
    MarkBehind(s, '$', t);
  }

  // What a reference between two texts gives, the expansions of its value and of what follows known.
  function Put(s: string, value: Expansion, rest: Expansion): Expansion {
    if !value.Expanded? then value else if !rest.Expanded? then rest else Expanded(s + value.text + rest.text)
  }

  /** A reference gives the expansion of the variable's value, one level deeper, between what is before
      and the expansion of what is behind the closing brace. Without a level left it is too deep, and
      without a value the variable is undefined. */
  lemma ReferenceText(global: Env, env: Env, s: string, x: string, t: string, levels: nat)
    requires Closed(s) && '}' !in x
    ensures Expand(global, env, s + "${" + x + "}" + t, levels) ==
            if levels == 0 then TooDeep
            else if !Bound(global, env, x) then Undefined(x)
            else Put(s, Expand(global, env, ValueOf(global, env, x), levels - 1), Expand(global, env, t, levels))
  {
    hide FirstMark, NameEnd, Closed;
    var text := s + "${" + x + "}" + t;
    assert text == s + ['$', '{'] + (x + "}" + t);
    MarkBehind(s, '{', x + "}" + t);
    var end := |s| + 2 + |x|;
    assert text[|s| + 2..][..|x|] == x == text[|s| + 2..end] && text[end + 1..] == t;
    NameEndsAt(text, |s| + 2, end);
    if levels > 0 && Bound(global, env, x) {
      PutTogether(s, Expand(global, env, ValueOf(global, env, x), levels - 1), Expand(global, env, t, levels));
    }
  }

  lemma PutTogether(s: string, value: Expansion, rest: Expansion)
    ensures Then(Expanded(s), Then(value, rest)) == Put(s, value, rest)
  {
    if value.Expanded? && rest.Expanded? {
      assert s + (value.text + rest.text) == s + value.text + rest.text;
    }
  }

  /** A reference that is not closed takes all that is left for its name. */
  lemma OpenReferenceText(global: Env, env: Env, s: string, x: string, levels: nat)
    requires Closed(s) && '}' !in x
    ensures Expand(global, env, s + "${" + x, levels) ==
            if levels == 0 then TooDeep
            else if !Bound(global, env, x) then Undefined(x)
            else Put(s, Expand(global, env, ValueOf(global, env, x), levels - 1), Expanded(""))
  {
    hide FirstMark, NameEnd, Closed;
    var text := s + "${" + x;
    assert text == s + ['$', '{'] + x;
    MarkBehind(s, '{', x);
    assert text[|s| + 2..] == x == text[|s| + 2..|text|];
    NameEndsAt(text, |s| + 2, |text|);
    PlainText(global, env, "", levels);
    if levels > 0 && Bound(global, env, x) {
      PutTogether(s, Expand(global, env, ValueOf(global, env, x), levels - 1), Expanded(""));
    }
  }

  datatype Shape = Plain | Dollar(before: string, rest: string) | Reference(before: string, name: string, rest: string)
                 | OpenReference(before: string, name: string)

  ghost predicate Shaped(text: string, shape: Shape) {
    match shape
    case Plain => Unmarked(text)
    case Dollar(s, t) => Closed(s) && text == s + "$$" + t
    case Reference(s, x, t) => Closed(s) && '}' !in x && text == s + "${" + x + "}" + t
    case OpenReference(s, x) => Closed(s) && '}' !in x && text == s + "${" + x
  }

  lemma NoneMarked(s: string)
    requires forall j :: 0 <= j < |s| ==> !Marks(s, j)
    ensures Unmarked(s)
  {
    forall i | 0 <= i < |s| - 1 && s[i] == '$' ensures s[i + 1] != '$' && s[i + 1] != '{' {
      assert !Marks(s, i);
    }
  }

  lemma BeforeMark(text: string, i: nat)
    requires i < |text| && text[i] == '$' && forall j :: 0 <= j < i ==> !Marks(text, j)
    ensures Closed(text[..i])
  {
    var s := text[..i];
    forall j | 0 <= j < |s| ensures !Marks(s, j) {
      assert !Marks(text, j) && s[j] == text[j];
    }
    NoneMarked(s);
    assert s != "" ==> !Marks(text, i - 1);
  }

  /** Every string has one of these shapes, so that the laws determine its expansion. */
  lemma EveryText(text: string) returns (shape: Shape)
    ensures Shaped(text, shape)
  {
    hide FirstMark, NameEnd, Unmarked, Closed;
    var i := FirstMark(text, 0);
    if i == |text| {
      NoneMarked(text);
      return Plain;
    }
    BeforeMark(text, i);
    if text[i + 1] == '$' {
      assert text == text[..i] + "$$" + text[i + 2..];
      return Dollar(text[..i], text[i + 2..]);
    }
    var end := NameEnd(text, i + 2);
    if end == |text| {
      assert text == text[..i] + "${" + text[i + 2..];
      return OpenReference(text[..i], text[i + 2..]);
    }
    assert text == text[..i] + "${" + text[i + 2..end] + "}" + text[end + 1..];
    shape := Reference(text[..i], text[i + 2..end], text[end + 1..]);
  }
}
