/** Texts and their lines, the way the diff and patch engines split and join them, and decimal
    numbers in hunk headers. */
module Text {

  datatype FileLines = FileLines(lines: seq<string>, hasTrailingNewline: bool)

  // The name that stands for a file that does not exist.
  const DEV_NULL := "/dev/null"

  // ----- Finding characters -----

  // The first position of c in s from a given one on, or -1.
  function FindChar(s: string, c: char, from: nat): (r: int)
    ensures r == -1 || (from <= r < |s| && s[r] == c)
    decreases |s| - from
  {
    if from >= |s| then -1 else if s[from] == c then from else FindChar(s, c, from + 1)
  }

  lemma {:induction false} FindsFirst(s: string, c: char, from: nat)
    requires from <= |s|
    ensures var r := FindChar(s, c, from);
            if r >= 0 then c !in s[from..r] else c !in s[from..]
    decreases |s| - from
  {
    if from < |s| && s[from] != c {
      FindsFirst(s, c, from + 1);
      var r := FindChar(s, c, from + 1);
      if r >= 0 {
        assert s[from..r] == [s[from]] + s[from + 1..r];
      } else {
        assert s[from..] == [s[from]] + s[from + 1..];
      }
    }
  }

  predicate StartsWith(s: string, prefix: string) {
    |prefix| <= |s| && s[..|prefix|] == prefix
  }

  lemma StartsWithFirst(s: string, prefix: string)
    requires prefix != [] && StartsWith(s, prefix)
    ensures s != [] && s[0] == prefix[0]
  {
    assert s[..|prefix|][0] == prefix[0];
  }

  predicate EndsWith(s: string, suffix: string) {
    |suffix| <= |s| && s[|s| - |suffix|..] == suffix
  }

  lemma {:induction false} FoundAt(s: string, c: char, from: nat, r: nat)
    requires from <= r < |s| && s[r] == c && c !in s[from..r]
    ensures FindChar(s, c, from) == r
    decreases r - from
  {
    if from < r {
      assert s[from..r] == [s[from]] + s[from + 1..r];
      FoundAt(s, c, from + 1, r);
    }
  }

  lemma {:induction false} FoundLater(s: string, c: char, from: nat, len: nat)
    requires from + len <= |s| && c !in s[from..from + len]
    ensures var r := FindChar(s, c, from); r == -1 || (from + len <= r < |s| && s[r] == c)
    decreases len
  {
    if len > 0 {
      assert s[from..from + len] == [s[from]] + s[from + 1..from + len];
      FoundLater(s, c, from + 1, len - 1);
    }
  }

  lemma {:induction false} NotFound(s: string, c: char, from: nat)
    requires from <= |s| && c !in s[from..]
    ensures FindChar(s, c, from) == -1
    decreases |s| - from
  {
    if from < |s| {
      assert s[from..] == [s[from]] + s[from + 1..];
      NotFound(s, c, from + 1);
    }
  }

  // ----- Lines -----

  // The lines of a text; what follows the last newline is a line unless it is empty.
  function LinesOf(s: string): seq<string>
    decreases |s|
  {
    if s == [] then []
    else
      var cut := FindChar(s, '\n', 0);
      if cut < 0 then [s] else [s[..cut]] + LinesOf(s[cut + 1..])
  }

  predicate EndsLine(s: string) {
    s == [] || s[|s| - 1] == '\n'
  }

  // The text made of the lines; the last one may lack its newline.
  function TextOf(lines: seq<string>, newline: bool): string {
    if lines == [] then ""
    else if |lines| == 1 then lines[0] + if newline then "\n" else ""
    else lines[0] + "\n" + TextOf(lines[1..], newline)
  }

  // A text is made of its lines.
  lemma {:induction false} TextOfLines(s: string)
    ensures TextOf(LinesOf(s), EndsLine(s)) == s
    decreases |s|
  {
    if s != [] {
      var cut := FindChar(s, '\n', 0);
      FindsFirst(s, '\n', 0);
      if cut < 0 {
        assert s[0..] == s;
        assert s[|s| - 1] in s;
      } else {
        var rest := s[cut + 1..];
        TextOfLines(rest);
        assert s == s[..cut] + "\n" + rest;
        assert rest != [] ==> rest[|rest| - 1] == s[|s| - 1];
        assert LinesOf(s)[1..] == LinesOf(rest);
      }
    }
  }

  ghost predicate NoChar(lines: seq<string>, c: char) {
    forall i :: 0 <= i < |lines| ==> c !in lines[i]
  }

  lemma {:induction false} LinesHaveNo(s: string, c: char)
    requires c == '\n' || c !in s
    ensures NoChar(LinesOf(s), c)
    decreases |s|
  {
    hide *;
    FirstLine(s);
    FindsFirst(s, '\n', 0);
    var cut := FindChar(s, '\n', 0);
    if s == [] {
      NoLines(c);
    } else if cut < 0 {
      assert s[0..] == s;
      NoLines(c);
      ConsHasNo(s, [], c);
      assert [s] + [] == [s];
    } else {
      assert s[0..cut] == s[..cut];
      SliceHasNo(s, c, cut);
      LinesHaveNo(s[cut + 1..], c);
      ConsHasNo(s[..cut], LinesOf(s[cut + 1..]), c);
    }
  }

  lemma SliceHasNo(s: string, c: char, cut: nat)
    requires cut < |s|
    ensures c !in s ==> c !in s[..cut] && c !in s[cut + 1..]
  {
  }

  lemma NoLines(c: char)
    ensures NoChar([], c)
  {
  }

  lemma ConsHasNo(line: string, lines: seq<string>, c: char)
    requires c !in line && NoChar(lines, c)
    ensures NoChar([line] + lines, c)
  {
  }

  // Lines without newlines are the lines of their text, unless that loses an empty last line.
  lemma {:induction false} LinesOfText(lines: seq<string>, newline: bool)
    requires NoChar(lines, '\n')
    requires lines != [] && !newline ==> lines[|lines| - 1] != []
    ensures LinesOf(TextOf(lines, newline)) == lines
    ensures EndsLine(TextOf(lines, newline)) <==> lines == [] || newline
    decreases |lines|
  {
    hide LinesOf, NoChar;
    if lines == [] {
      FirstLine([]);
    } else {
      NoCharSplit(lines, '\n');
      if |lines| == 1 && !newline {
        OnlyLine(lines[0]);
        assert lines == [lines[0]] && lines[0] + "" == lines[0];
      } else {
        var rest := if |lines| == 1 then "" else TextOf(lines[1..], newline);
        HeadLine(lines[0], rest);
        FirstLine([]);
        LinesOfText(lines[1..], newline);
        assert lines == [lines[0]] + lines[1..];
        assert TextOf(lines, newline) == lines[0] + "\n" + rest;
      }
    }
  }

  lemma NoCharSplit(lines: seq<string>, c: char)
    requires NoChar(lines, c) && lines != []
    ensures c !in lines[0] && NoChar(lines[1..], c)
  {
  }

  lemma OnlyLine(line: string)
    requires '\n' !in line && line != []
    ensures LinesOf(line) == [line] && !EndsLine(line)
  {
    assert line[0..] == line;
    NotFound(line, '\n', 0);
    assert line[|line| - 1] in line;
  }

  lemma HeadLine(first: string, rest: string)
    requires '\n' !in first
    ensures LinesOf(first + "\n" + rest) == [first] + LinesOf(rest)
    ensures EndsLine(first + "\n" + rest) <==> EndsLine(rest)
  {
    var s := first + "\n" + rest;
    assert s[0..|first|] == first == s[..|first|];
    FoundAt(s, '\n', 0, |first|);
    assert s[|first| + 1..] == rest;
    assert rest != [] ==> s[|s| - 1] == rest[|rest| - 1];
  }

  // What the line splitters keep of a line that ends in a carriage return.
  function DropCr(line: string): string {
    if line != [] && line[|line| - 1] == '\r' then line[..|line| - 1] else line
  }

  function DropCrAll(lines: seq<string>): (r: seq<string>)
    ensures |r| == |lines|
    ensures forall i :: 0 <= i < |lines| ==> r[i] == DropCr(lines[i])
  {
    seq(|lines|, i requires 0 <= i < |lines| => DropCr(lines[i]))
  }

  ghost predicate NoneEndsInCr(lines: seq<string>) {
    forall i :: 0 <= i < |lines| ==> DropCr(lines[i]) == lines[i]
  }

  lemma NothingToDrop(lines: seq<string>)
    requires NoneEndsInCr(lines)
    ensures DropCrAll(lines) == lines
  {
  }

  lemma TextOfConcat(s: seq<string>, t: seq<string>, newline: bool)
    requires t != []
    ensures TextOf(s + t, newline) == TextOf(s, true) + TextOf(t, newline)
  {
    if s == [] {
      assert s + t == t;
    } else {
      assert (s + t)[0] == s[0] && (s + t)[1..] == s[1..] + t;
      TextOfConcat(s[1..], t, newline);
    }
  }

  lemma TextOfJoined(s: seq<string>, t: seq<string>)
    ensures TextOf(s + t, true) == TextOf(s, true) + TextOf(t, true)
  {
    if t == [] {
      assert s + t == s;
    } else {
      TextOfConcat(s, t, true);
    }
  }

  lemma TextOfAppend(s: seq<string>, line: string)
    ensures TextOf(s + [line], true) == TextOf(s, true) + line + "\n"
  {
    TextOfConcat(s, [line], true);
  }

  // ----- The line splitters -----

  // The lines found up to i, and where the unfinished one starts.
  ghost predicate SplitSoFar(content: string, lines: seq<string>, start: nat, i: nat) {
    && start <= i <= |content| && '\n' !in content[start..i]
    && LinesOf(content) == lines + LinesOf(content[start..])
  }

  lemma SplitStart(content: string)
    ensures SplitSoFar(content, [], 0, 0)
  {
    assert content[0..] == content;
  }

  lemma SplitNext(content: string, lines: seq<string>, start: nat, i: nat)
    requires i < |content| && SplitSoFar(content, lines, start, i)
    ensures start <= i
    ensures if content[i] == '\n' then SplitSoFar(content, lines + [content[start..i]], i + 1, i + 1)
            else SplitSoFar(content, lines, start, i + 1)
  {
    hide LinesOf;
    if content[i] == '\n' {
      CutLine(content, start, i);
      assert lines + ([content[start..i]] + LinesOf(content[i + 1..])) == lines + [content[start..i]] + LinesOf(content[i + 1..]);
    } else {
      assert content[start..i + 1] == content[start..i] + [content[i]];
    }
  }

  lemma SplitEnd(content: string, lines: seq<string>, start: nat)
    requires SplitSoFar(content, lines, start, |content|)
    ensures start <= |content|
    ensures LinesOf(content) == lines + if start < |content| then [content[start..]] else []
  {
    assert content[start..|content|] == content[start..];
    var rest := content[start..];
    assert rest[0..] == rest;
    NotFound(rest, '\n', 0);
  }

  lemma CutLine(s: string, start: nat, i: nat)
    requires start <= i < |s| && s[i] == '\n' && '\n' !in s[start..i]
    ensures LinesOf(s[start..]) == [s[start..i]] + LinesOf(s[i + 1..])
  {
    var rest := s[start..];
    assert rest[0..i - start] == s[start..i] == rest[..i - start];
    FoundAt(rest, '\n', 0, i - start);
    assert rest[i - start + 1..] == s[i + 1..];
  }

  /** Splits the content of a file to compare; lines keep their carriage returns. */
  method SplitFileLines(content: string) returns (fl: FileLines)
    ensures fl == FileLines(LinesOf(content), EndsLine(content))
  {
    hide LinesOf, SplitSoFar;
    FirstLine([]);
    if content == [] {
      return FileLines([], true);
    }
    SplitStart(content);
    var lines: seq<string> := [];
    var start := 0;
    for i := 0 to |content|
      invariant 0 <= start && SplitSoFar(content, lines, start, i)
    {
      SplitNext(content, lines, start, i);
      if content[i] == '\n' {
        lines := lines + [content[start..i]];
        start := i + 1;
      }
    }
    SplitEnd(content, lines, start);
    if start < |content| {
      lines := lines + [content[start..]];
    }
    fl := FileLines(lines, content[|content| - 1] == '\n');
  }

  /** Splits a patch into lines without newlines and without carriage returns before them. */
  method SplitLines(text: string) returns (lines: seq<string>)
    ensures lines == DropCrAll(LinesOf(text))
  {
    hide LinesOf, DropCrAll;
    lines := [];
    var s := text;
    ghost var done: seq<string> := [];
    while s != []
      invariant lines == DropCrAll(done) && LinesOf(text) == done + LinesOf(s)
      decreases |s|
    {
      var pos := FindChar(s, '\n', 0);
      FirstLine(s);
      if pos < 0 {
        lines := lines + [DropCr(s)];
        DropAppend(done, s);
        assert done + [s] + LinesOf([]) == done + [s];
        done := done + [s];
        s := [];
      } else {
        lines := lines + [DropCr(s[..pos])];
        DropAppend(done, s[..pos]);
        assert done + ([s[..pos]] + LinesOf(s[pos + 1..])) == done + [s[..pos]] + LinesOf(s[pos + 1..]);
        done := done + [s[..pos]];
        s := s[pos + 1..];
      }
    }
    FirstLine([]);
    assert done + [] == done;
  }

  lemma FirstLine(s: string)
    ensures LinesOf([]) == []
    ensures var pos := FindChar(s, '\n', 0);
            s != [] ==> LinesOf(s) == if pos < 0 then [s] else [s[..pos]] + LinesOf(s[pos + 1..])
  {
  }

  lemma DropNone()
    ensures DropCrAll([]) == []
  {
  }

  lemma DropAppend(lines: seq<string>, line: string)
    ensures DropCrAll(lines + [line]) == DropCrAll(lines) + [DropCr(line)]
  {
  }

  datatype FileContent = FileContent(lines: seq<string>, hasTrailingNewline: bool, crlf: bool)

  predicate Crlf(content: string) {
    var firstLf := FindChar(content, '\n', 0);
    firstLf > 0 && content[firstLf - 1] == '\r'
  }

  /** Splits the content of a file to patch. */
  method LoadFileLines(content: string) returns (fc: FileContent)
    ensures fc == FileContent(DropCrAll(LinesOf(content)), EndsLine(content), Crlf(content))
  {
    hide LinesOf, SplitSoFar, DropCrAll, FindChar;
    FirstLine([]);
    DropNone();
    if content == [] {
      return FileContent([], true, false);
    }
    var firstLf := FindChar(content, '\n', 0);
    var crlf := firstLf > 0 && content[firstLf - 1] == '\r';
    SplitStart(content);
    var lines: seq<string> := [];
    ghost var done: seq<string> := [];
    var start := 0;
    for i := 0 to |content|
      invariant 0 <= start && SplitSoFar(content, done, start, i) && lines == DropCrAll(done)
    {
      SplitNext(content, done, start, i);
      if content[i] == '\n' {
        var end := i;
        if end > start && content[end - 1] == '\r' {
          end := end - 1;
        }
        assert content[start..end] == DropCr(content[start..i]);
        assert DropCrAll(done + [content[start..i]]) == DropCrAll(done) + [content[start..end]] by {
          DropAppend(done, content[start..i]);
        }
        lines := lines + [content[start..end]];
        done := done + [content[start..i]];
        start := i + 1;
      }
    }
    SplitEnd(content, done, start);
    if start < |content| {
      var tail := content[start..];
      DropAppend(done, tail);
      if tail != [] && tail[|tail| - 1] == '\r' {
        tail := tail[..|tail| - 1];
      }
      lines := lines + [tail];
    } else {
      assert done + [] == done;
    }
    fc := FileContent(lines, content[|content| - 1] == '\n', crlf);
  }

  // ----- Decimal numbers -----

  predicate IsDigit(c: char) {
    '0' <= c <= '9'
  }

  function DigitValue(c: char): nat
    requires IsDigit(c)
  {
    c as int - '0' as int
  }

  function Decimal(n: nat): (s: string)
    ensures s != [] && forall i :: 0 <= i < |s| ==> IsDigit(s[i])
  {
    var last := ('0' as int + n % 10) as char;
    if n < 10 then [last] else Decimal(n / 10) + [last]
  }

  // The value of the digits s begins with, after some digits with value n.
  function DigitsValue(s: string, n: nat): nat {
    if s == [] || !IsDigit(s[0]) then n else DigitsValue(s[1..], 10 * n + DigitValue(s[0]))
  }

  // The number s begins with, and 0 if there is none.
  function ParseInt(s: string): int {
    if s != [] && s[0] == '-' then 0 - DigitsValue(s[1..], 0) else DigitsValue(s, 0)
  }

  lemma {:induction false} DigitsValueConcat(s: string, t: string, n: nat)
    requires forall i :: 0 <= i < |s| ==> IsDigit(s[i])
    ensures DigitsValue(s + t, n) == DigitsValue(t, DigitsValue(s, n))
    decreases |s|
  {
    if s == [] {
      assert s + t == t;
    } else {
      assert (s + t)[0] == s[0] && (s + t)[1..] == s[1..] + t;
      DigitsValueConcat(s[1..], t, 10 * n + DigitValue(s[0]));
    }
  }

  // Reading back a printed number.
  lemma {:induction false} ParseDecimal(n: nat)
    ensures ParseInt(Decimal(n)) == n
    decreases n
  {
    var s := Decimal(n);
    assert IsDigit(s[0]);
    if n >= 10 {
      var init, last := Decimal(n / 10), [('0' as int + n % 10) as char];
      ParseDecimal(n / 10);
      assert IsDigit(init[0]);
      DigitsValueConcat(init, last, 0);
      SingleDigit(n % 10, n / 10);
    } else {
      SingleDigit(n, 0);
    }
  }

  function SignedDecimal(n: int): string {
    if n < 0 then "-" + Decimal(-n) else Decimal(n)
  }

  lemma ParseSigned(n: int)
    ensures ParseInt(SignedDecimal(n)) == n && SignedDecimal(n) != ""
    ensures forall c :: c in SignedDecimal(n) ==> IsDigit(c) || c == '-'
  {
    hide Decimal, DigitsValue;
    if n < 0 {
      ParseDecimal(-n);
      assert IsDigit(Decimal(-n)[0]);
      assert SignedDecimal(n)[1..] == Decimal(-n);
    } else {
      ParseDecimal(n);
    }
  }

  lemma SingleDigit(d: nat, n: nat)
    requires d < 10
    ensures DigitsValue([('0' as int + d) as char], n) == 10 * n + d
  {
    var s := [('0' as int + d) as char];
    assert s[1..] == [];
    assert DigitsValue(s[1..], 10 * n + d) == 10 * n + d;
  }
}
