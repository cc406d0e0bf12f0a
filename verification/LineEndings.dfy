/** Carriage returns at the ends of lines: what the patch engine drops, restores and loses. */
module LineEndings {
  import opened Text
  import opened PatchParser
  import opened PatchApply
  import opened PatchOutput
  import opened PatchEngine

  // ----- Restoring -----

  lemma RestoreNext(s: string, c: char)
    ensures RestoreCr(s + [c]) == RestoreCr(s) + (if c == '\n' && (s == "" || s[|s| - 1] != '\r') then "\r" else "") + [c]
  {
    var t := s + [c];
    assert t[..|t| - 1] == s && t[|t| - 1] == c;
  }

  lemma EmptyRestored()
    ensures RestoreCr("") == ""
  {
  }

  // Text behind a newline is restored on its own.
  lemma {:induction false} RestoreConcat(s: string, t: string)
    requires s != "" && s[|s| - 1] == '\n'
    ensures RestoreCr(s + t) == RestoreCr(s) + RestoreCr(t)
    decreases |t|, 0
  {
    hide RestoreCr;
    if t == "" {
      EmptyRestored();
      assert s + t == s;
    } else {
      ConcatStep(s, t[..|t| - 1], t[|t| - 1]);
      assert t == t[..|t| - 1] + [t[|t| - 1]];
    }
  }

  lemma ConcatStep(s: string, t: string, c: char)
    requires s != "" && s[|s| - 1] == '\n'
    ensures RestoreCr(s + (t + [c])) == RestoreCr(s) + RestoreCr(t + [c])
    decreases |t|, 1
  {
    hide RestoreCr;
    RestoreConcat(s, t);
    RestoreNext(s + t, c);
    RestoreNext(t, c);
    LastOfBoth(s, t);
    Regrouped(RestoreCr(s), RestoreCr(t), if c == '\n' && (t == "" || t[|t| - 1] != '\r') then "\r" else "", [c]);
    assert s + (t + [c]) == (s + t) + [c];
  }

  lemma LastOfBoth(s: string, t: string)
    requires s != "" && s[|s| - 1] == '\n'
    ensures s + t != "" && ((s + t)[|s + t| - 1] == '\r' <==> t != "" && t[|t| - 1] == '\r')
  {
  }

  lemma Regrouped(p: string, q: string, x: string, y: string)
    ensures (p + q) + x + y == p + (q + x + y)
  {
  }

  lemma {:induction false} NothingRestored(s: string)
    requires '\n' !in s
    ensures RestoreCr(s) == s
    decreases |s|
  {
    if s != "" {
      NothingRestored(s[..|s| - 1]);
    }
  }

  // A line with its carriage return.
  ghost function WithCr(line: string): string {
    if line != "" && line[|line| - 1] == '\r' then line else line + "\r"
  }

  lemma OneRestored(line: string)
    requires '\n' !in line
    ensures RestoreCr(line + "\n") == WithCr(line) + "\n"
    ensures '\n' !in WithCr(line) && DropCr(WithCr(line)) == DropCr(line)
  {
    NothingRestored(line);
    assert (line + "\n")[..|line|] == line;
  }

  /** Restored line endings do not change the lines that are read back, nor the end of the file. */
  lemma {:induction false} RestoredReadsBack(s: string)
    ensures FileLinesOf(RestoreCr(s)) == FileLinesOf(s) && EndsLine(RestoreCr(s)) == EndsLine(s)
    decreases |s|
  {
    hide RestoreCr, DropCr, WithCr, LinesOf, EndsLine, DropCrAll;
    var cut := FindChar(s, '\n', 0);
    if cut < 0 {
      FindsFirst(s, '\n', 0);
      NothingRestored(s);
    } else {
      FindsFirst(s, '\n', 0);
      var line, rest := s[..cut], s[cut + 1..];
      assert s == line + "\n" + rest;
      RestoreConcat(line + "\n", rest);
      OneRestored(line);
      RestoredReadsBack(rest);
      HeadLine(line, rest);
      HeadLine(WithCr(line), RestoreCr(rest));
      SameDropped(line, LinesOf(rest), WithCr(line), LinesOf(RestoreCr(rest)));
      assert RestoreCr(s) == WithCr(line) + "\n" + RestoreCr(rest);
    }
  }

  lemma SameDropped(x: string, s: seq<string>, y: string, t: seq<string>)
    requires DropCr(x) == DropCr(y) && DropCrAll(s) == DropCrAll(t)
    ensures DropCrAll([x] + s) == DropCrAll([y] + t)
  {
    hide DropCr;
    assert DropCrAll([x] + s) == [DropCr(x)] + DropCrAll(s);
    assert DropCrAll([y] + t) == [DropCr(y)] + DropCrAll(t);
  }

  /** Every newline is preceded by a carriage return then, and restoring once more changes nothing. */
  lemma {:induction false} RestoredEverywhere(s: string)
    ensures forall k :: 0 <= k < |RestoreCr(s)| && RestoreCr(s)[k] == '\n' ==> k > 0 && RestoreCr(s)[k - 1] == '\r'
    decreases |s|
  {
    if s != "" {
      RestoredEverywhere(s[..|s| - 1]);
      RestoredEnd(s[..|s| - 1]);
    }
  }

  lemma RestoredEnd(s: string)
    ensures s != "" ==> RestoreCr(s) != "" && RestoreCr(s)[|RestoreCr(s)| - 1] == s[|s| - 1]
  {
  }

  lemma {:induction false} AlreadyRestored(s: string)
    requires forall k :: 0 <= k < |s| && s[k] == '\n' ==> k > 0 && s[k - 1] == '\r'
    ensures RestoreCr(s) == s
    decreases |s|
  {
    if s != "" {
      AlreadyRestored(s[..|s| - 1]);
      assert s == s[..|s| - 1] + [s[|s| - 1]];
    }
  }

  // ----- What comes back -----

  // The text with its carriage returns put back, if the file had them.
  function Rejoined(text: string, crlf: bool): string {
    if crlf then RestoreCr(text) else text
  }

  /** What a patch can make at best of a file: the lines of the other one without their carriage returns,
      and then with one each if the first line of the file it is applied to has one. */
  function Recovered(from: string, to: string): string {
    Rejoined(TextOf(FileLinesOf(to), EndsLine(to)), Crlf(from))
  }

  // The line ends in exactly one carriage return if that is put back, and in none otherwise.
  predicate ComesBack(line: string, restored: bool) {
    if restored then DropCr(line) != line && DropCr(DropCr(line)) == DropCr(line)
    else DropCr(line) == line
  }

  predicate AllComeBack(lines: seq<string>, newline: bool, crlf: bool) {
    forall k :: 0 <= k < |lines| ==> ComesBack(lines[k], crlf && (newline || k < |lines| - 1))
  }

  lemma SameBehindNewline(x: string, s: string, y: string, t: string)
    requires '\n' !in x && '\n' !in y
    ensures x + "\n" + s == y + "\n" + t <==> x == y && s == t
  {
    var u, v := x + "\n" + s, y + "\n" + t;
    assert u[0..|x|] == x && v[0..|y|] == y && u[|x| + 1..] == s && v[|y| + 1..] == t;
    FoundAt(u, '\n', 0, |x|);
    FoundAt(v, '\n', 0, |y|);
  }

  lemma LineRejoined(line: string, rest: string, crlf: bool)
    requires '\n' !in line
    ensures var back := if crlf then WithCr(DropCr(line)) else DropCr(line);
            && Rejoined(DropCr(line) + "\n" + rest, crlf) == back + "\n" + Rejoined(rest, crlf)
            && '\n' !in back && (back == line <==> ComesBack(line, crlf))
  {
    hide RestoreCr;
    if crlf {
      RestoreConcat(DropCr(line) + "\n", rest);
      OneRestored(DropCr(line));
    }
  }

  lemma {:induction false} TextComesBack(lines: seq<string>, newline: bool, crlf: bool)
    requires NoChar(lines, '\n')
    ensures Rejoined(TextOf(DropCrAll(lines), newline), crlf) == TextOf(lines, newline) <==> AllComeBack(lines, newline, crlf)
    decreases |lines|
  {
    hide RestoreCr, DropCr, WithCr, ComesBack;
    if lines == [] {
      EmptyRestored();
    } else if |lines| == 1 && !newline {
      LastRejoined(lines[0], crlf);
      OnlyComesBack(lines, crlf);
      assert lines[0] + "" == lines[0] && DropCr(lines[0]) + "" == DropCr(lines[0]);
    } else {
      var line, rest := lines[0], lines[1..];
      TextComesBack(rest, newline, crlf);
      TextOfFirst(lines, newline);
      TextOfFirst(DropCrAll(lines), newline);
      assert DropCrAll(lines)[1..] == DropCrAll(rest);
      LineRejoined(line, TextOf(DropCrAll(rest), newline), crlf);
      SameBehindNewline(if crlf then WithCr(DropCr(line)) else DropCr(line),
                        Rejoined(TextOf(DropCrAll(rest), newline), crlf), line, TextOf(rest, newline));
      FirstComesBack(lines, newline, crlf);
    }
  }

  lemma LastRejoined(line: string, crlf: bool)
    requires '\n' !in line
    ensures Rejoined(DropCr(line), crlf) == DropCr(line) && (DropCr(line) == line <==> ComesBack(line, false))
  {
    NothingRestored(DropCr(line));
  }

  lemma TextOfFirst(lines: seq<string>, newline: bool)
    requires lines != [] && (newline || |lines| > 1)
    ensures TextOf(lines, newline) == lines[0] + "\n" + TextOf(lines[1..], newline)
  {
  }

  lemma OnlyComesBack(lines: seq<string>, crlf: bool)
    requires |lines| == 1
    ensures AllComeBack(lines, false, crlf) <==> ComesBack(lines[0], false)
  {
    hide ComesBack;
    assert AllComeBack(lines, false, crlf) ==> ComesBack(lines[0], crlf && (false || 0 < |lines| - 1));
  }

  lemma FirstComesBack(lines: seq<string>, newline: bool, crlf: bool)
    requires lines != [] && (newline || |lines| > 1)
    ensures AllComeBack(lines, newline, crlf) <==> ComesBack(lines[0], crlf) && AllComeBack(lines[1..], newline, crlf)
  {
    hide ComesBack;
    var rest := lines[1..];
    if ComesBack(lines[0], crlf) && AllComeBack(rest, newline, crlf) {
      forall k | 0 <= k < |lines| ensures ComesBack(lines[k], crlf && (newline || k < |lines| - 1)) {
        if k > 0 {
          assert ComesBack(rest[k - 1], crlf && (newline || k - 1 < |rest| - 1));
        }
      }
    }
    if AllComeBack(lines, newline, crlf) {
      forall k | 0 <= k < |rest| ensures ComesBack(rest[k], crlf && (newline || k < |rest| - 1)) {
        assert ComesBack(lines[k + 1], crlf && (newline || k + 1 < |lines| - 1));
      }
    }
  }

  /** The other file comes back byte for byte if and only if each of its lines ends the way the first
      line of the patched one does: in exactly one carriage return, or in none. */
  lemma RecoveredExactly(from: string, to: string)
    ensures Recovered(from, to) == to <==> AllComeBack(LinesOf(to), EndsLine(to), Crlf(from))
  {
    hide TextOf, LinesOf, EndsLine, Rejoined, AllComeBack, Crlf;
    TextOfLines(to);
    LinesHaveNo(to, '\n');
    TextComesBack(LinesOf(to), EndsLine(to), Crlf(from));
  }

  // A new file with a carriage return, and a line without one in a file whose first line has one.
  lemma CarriageReturnsFail()
    ensures Recovered("", "a\r\n") != "a\r\n"
    ensures Recovered("a\r\nb\n", "a\r\nc\n") != "a\r\nc\n"
  {
    hide LinesOf, Recovered;
    FirstOfTwo("a\r", "");
    FirstOfTwo("a\r", "b\n");
    FirstOfTwo("a\r", "c\n");
    FirstOfTwo("c", "");
    NoLines();
    assert "a\r\nb\n" == "a\r" + "\n" + "b\n" && "a\r\nc\n" == "a\r" + "\n" + "c\n" && "c\n" == "c" + "\n" + "";
    assert "a\r\n" == "a\r" + "\n" + "";
    assert LinesOf("a\r\n")[0] == "a\r" && LinesOf("a\r\nc\n")[1] == "c";
    RecoveredExactly("", "a\r\n");
    RecoveredExactly("a\r\nb\n", "a\r\nc\n");
    assert !ComesBack("a\r", false) && !ComesBack("c", true);
  }

  lemma NoLines()
    ensures LinesOf("") == [] && !Crlf("")
  {
  }

  lemma FirstOfTwo(line: string, rest: string)
    requires '\n' !in line
    ensures LinesOf(line + "\n" + rest) == [line] + LinesOf(rest) && EndsLine(line + "\n" + rest) == EndsLine(rest)
    ensures Crlf(line + "\n" + rest) <==> DropCr(line) != line
  {
    HeadLine(line, rest);
    var s := line + "\n" + rest;
    assert s[0..|line|] == line;
    FoundAt(s, '\n', 0, |line|);
  }

  // ----- Texts without carriage returns at the ends of lines -----

  ghost predicate CleanText(s: string) {
    (forall k :: 0 <= k < |s| - 1 && s[k] == '\r' ==> s[k + 1] != '\n') && (s != "" ==> s[|s| - 1] != '\r')
  }

  // No line ends in two carriage returns.
  ghost predicate OneCrAtMost(content: string) {
    NoneEndsInCr(FileLinesOf(content))
  }

  ghost predicate CleanLines(lines: seq<string>) {
    NoneEndsInCr(lines) && NoChar(lines, '\n')
  }

  lemma CleanJoined(s: string, t: string)
    requires CleanText(s) && CleanText(t)
    ensures CleanText(s + t)
  {
  }

  lemma CleanLine(line: string)
    requires DropCr(line) == line && '\n' !in line
    ensures CleanText(line) && CleanText(line + "\n")
  {
  }

  lemma {:induction false} CleanLinesText(lines: seq<string>, newline: bool)
    requires CleanLines(lines)
    ensures CleanText(TextOf(lines, newline))
    decreases |lines|
  {
    hide CleanText, DropCr;
    if lines == [] {
      NothingIsClean();
    } else {
      CleanLine(lines[0]);
      if |lines| == 1 && !newline {
        assert TextOf(lines, newline) == lines[0] + "" == lines[0];
      } else {
        CleanLinesText(lines[1..], newline);
        TextOfFirst(lines, newline);
        CleanJoined(lines[0] + "\n", TextOf(lines[1..], newline));
      }
    }
  }

  lemma NothingIsClean()
    ensures CleanText("")
  {
  }

  lemma {:induction false} CleanTextLines(s: string)
    requires CleanText(s)
    ensures NoneEndsInCr(LinesOf(s))
    decreases |s|
  {
    if s != "" {
      var cut := FindChar(s, '\n', 0);
      FindsFirst(s, '\n', 0);
      if cut >= 0 {
        assert cut > 0 ==> s[cut - 1] != '\r';
        CleanBehind(s, cut + 1);
        CleanTextLines(s[cut + 1..]);
      }
    }
  }

  lemma CleanBehind(s: string, i: nat)
    requires CleanText(s) && i <= |s|
    ensures CleanText(s[i..])
  {
    var t := s[i..];
    forall k | 0 <= k < |t| - 1 && t[k] == '\r' ensures t[k + 1] != '\n' {
      assert s[i + k] == '\r';
    }
  }

  // Clean files and hunks make clean texts.
  lemma {:induction false} CleanRendered(file: seq<string>, newline: bool, hunks: seq<PatchHunk>, ps: seq<Placement>, last: nat)
    requires |hunks| == |ps| && last <= |file| && CleanLines(file) && forall h :: h in hunks ==> CleanLines(NewLines(h))
    ensures CleanText(RenderFrom(file, newline, hunks, ps, last))
    decreases |hunks|
  {
    hide CleanText, TextOf, Side, DropCr;
    if hunks == [] {
      CleanLinesText(file[last..], newline);
    } else if ps[0].Rejected? {
      CleanRendered(file, newline, hunks[1..], ps[1..], last);
    } else {
      assert hunks[0] in hunks;
      CleanCopied(file, last, WindowStart(file, ps[0]));
      CleanLinesText(Replacement(hunks[0], ps[0]), !(ps[0].suffix == 0 && hunks[0].newNoNewline));
      CleanRendered(file, newline, hunks[1..], ps[1..], WindowEnd(file, hunks[0], ps[0]));
      var text := TextOf(Replacement(hunks[0], ps[0]), !(ps[0].suffix == 0 && hunks[0].newNoNewline));
      CleanJoined(Copied(file, last, WindowStart(file, ps[0])), text);
      CleanJoined(Copied(file, last, WindowStart(file, ps[0])) + text,
                  RenderFrom(file, newline, hunks[1..], ps[1..], WindowEnd(file, hunks[0], ps[0])));
    }
  }

  lemma CleanCopied(file: seq<string>, from: nat, to: nat)
    requires CleanLines(file)
    ensures CleanText(Copied(file, from, to))
  {
    hide CleanText, TextOf, DropCr;
    NothingIsClean();
    if from <= to <= |file| {
      CleanLinesText(file[from..to], true);
    }
  }

  /** A clean text with its carriage returns put back is the other file only if it is that file without
      them, and that file comes back. */
  lemma RejoinedExactly(text: string, from: string, to: string)
    requires CleanText(text)
    ensures Rejoined(text, Crlf(from)) == to <==> text == TextOf(FileLinesOf(to), EndsLine(to)) && Recovered(from, to) == to
  {
    hide TextOf, LinesOf, EndsLine, Crlf, RestoreCr, CleanText;
    CleanTextLines(text);
    NothingToDrop(LinesOf(text));
    TextOfLines(text);
    RestoredReadsBack(text);
  }
}
