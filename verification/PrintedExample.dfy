/** The printed form of one change, letter by letter. */
module PrintedExample {
  import opened EditScript
  import opened Text
  import opened Hunks
  import opened Unified
  import opened PatchParser
  import opened PatchEngine

  lemma Digits()
    ensures Decimal(1) == "1" && Decimal(2) == "2" && Decimal(12) == "12"
  {
    assert Decimal(12) == Decimal(1) + ['2'];
  }

  /** A range of one line is printed without its count, and the marker follows the line that lacks a newline. */
  lemma OneLineChanged()
    ensures var fa, fb := FileLines(["a"], true), FileLines(["b"], false);
            UnifiedLines(fa, fb, [Hunk(1, 1, 1, 1, [Delete(0), Insert(0)])], "x", "y") ==
            ["--- x", "+++ y", "@@ -1 +1 @@", "-a", "+b", "\\ No newline at end of file"]
  {
    hide Decimal;
    Digits();
    var fa, fb := FileLines(["a"], true), FileLines(["b"], false);
    var h := Hunk(1, 1, 1, 1, [Delete(0), Insert(0)]);
    assert OpsLines(fa, fb, h.ops) == ["-a", "+b", MARKER] by {
      assert h.ops[1..] == [Insert(0)] && h.ops[1..][1..] == [];
      assert "-" + "a" == "-a" && "+" + "b" == "+b";
      assert ["-a"] + Mark(false) == ["-a"] && ["+b"] + Mark(true) == ["+b", MARKER];
      assert OpLines(fa, fb, Delete(0)) == ["-a"] && OpLines(fa, fb, Insert(0)) == ["+b", MARKER];
    }
    assert HunkHeader(h) == "@@ -1 +1 @@";
    assert HunksLines(fa, fb, [h]) == ["@@ -1 +1 @@", "-a", "+b", MARKER] by {
      assert [h][1..] == [];
    }
    assert "--- " + "x" == "--- x" && "+++ " + "y" == "+++ y";
  }

  /** Other ranges have their counts, and lines of context a blank. */
  lemma LinesAround()
    ensures var fa, fb := FileLines(["a", "b"], true), FileLines(["a"], true);
            UnifiedLines(fa, fb, [Hunk(1, 2, 1, 1, [Equal(0, 0), Delete(1)])], "x", "y") ==
            ["--- x", "+++ y", "@@ -1,2 +1 @@", " a", "-b"]
  {
    hide Decimal;
    Digits();
    var fa, fb := FileLines(["a", "b"], true), FileLines(["a"], true);
    var h := Hunk(1, 2, 1, 1, [Equal(0, 0), Delete(1)]);
    assert OpsLines(fa, fb, h.ops) == [" a", "-b"] by {
      assert h.ops[1..] == [Delete(1)] && h.ops[1..][1..] == [];
      assert "-" + "b" == "-b" && " " + "a" == " a";
      assert ["-b"] + Mark(false) == ["-b"] && [" a"] + Mark(false) == [" a"];
      assert OpLines(fa, fb, Equal(0, 0)) == [" a"] && OpLines(fa, fb, Delete(1)) == ["-b"];
    }
    assert HunkHeader(h) == "@@ -1,2 +1 @@";
    assert HunksLines(fa, fb, [h]) == ["@@ -1,2 +1 @@", " a", "-b"] by {
      assert [h][1..] == [];
    }
    assert "--- " + "x" == "--- x" && "+++ " + "y" == "+++ y";
  }

  /** A rejected hunk always has its counts. */
  lemma OneLineRejected()
    ensures RejectHunk(PatchHunk(2, 0, 2, 1, ["+b"], false, false)) == "@@ -2,0 +2,1 @@\n" + "+b\n"
  {
    hide Decimal, TextOf;
    Digits();
    NoDigits();
    assert SignedDecimal(2) == "2" && SignedDecimal(1) == "1" && SignedDecimal(0) == "0";
    assert "@@ -" + "2" + "," + "0" + " +" + "2" + "," + "1" + " @@\n" == "@@ -2,0 +2,1 @@\n";
    OneLineText();
  }

  lemma NoDigits()
    ensures Decimal(0) == "0"
  {
  }

  lemma OneLineText()
    ensures TextOf(["+b"], true) + "" == "+b\n"
  {
    assert "+b" + "\n" == "+b\n";
  }
}
