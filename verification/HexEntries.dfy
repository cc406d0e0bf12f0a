/** What a hexdump shows of its input: the lines that are printed, and the file they stand for. */
module HexEntries {
  import opened HexBits
  import opened HexDigits
  import opened HexStreams
  import opened HexLines

  datatype Config = Config(cols: nat, group: nat, upper: bool, autoskip: bool, display: Display)

  ghost predicate ValidConfig(c: Config) {
    c.cols > 0 && c.group > 0 && forall b: Octet :: c.display(b) != NEWLINE
  }

  // The text column in ASCII: a dot for what cannot be printed.
  function Ascii(b: Octet): Octet {
    if 0x20 <= b <= 0x7e then b else DOT
  }

  lemma AsciiIsValid(cols: nat, group: nat, upper: bool, autoskip: bool)
    requires cols > 0 && group > 0
    ensures ValidConfig(Config(cols, group, upper, autoskip, Ascii))
  {
  }

  // A line of octets with its offset, or the star that stands for lines left out.
  datatype Entry = Star | Line(offset: nat, bytes: seq<Octet>)

  // The text an entry has: its offset in digits, and its body.
  ghost predicate Fits(line: seq<Octet>, e: Entry, c: Config)
    requires ValidConfig(c)
  {
    match e
    case Star => line == [STAR, NEWLINE]
    case Line(offset, bytes) =>
      var n := |OffsetText(offset)|;
      && n <= |line| && line[..n] == OffsetText(offset) && bytes != []
      && IsBody(line[n..], bytes, c.cols, c.group, c.upper, c.display)
  }

  ghost predicate AllFit(lines: seq<seq<Octet>>, es: seq<Entry>, c: Config)
    requires ValidConfig(c)
  {
    |lines| == |es| && forall i :: 0 <= i < |es| ==> Fits(lines[i], es[i], c)
  }

  ghost function Joined(parts: seq<seq<Octet>>): seq<Octet> {
    if parts == [] then [] else Joined(parts[..|parts| - 1]) + parts[|parts| - 1]
  }

  lemma JoinedAppend(parts: seq<seq<Octet>>, part: seq<Octet>)
    ensures Joined(parts + [part]) == Joined(parts) + part
  {
    assert (parts + [part])[..|parts|] == parts;
  }

  /** The text of an entry is determined by it. */
  lemma FitsOnce(s: seq<Octet>, t: seq<Octet>, e: Entry, c: Config)
    requires ValidConfig(c) && Fits(s, e, c) && Fits(t, e, c)
    ensures s == t
  {
    hide IsBody, OffsetText;
    if e.Line? {
      var n := |OffsetText(e.offset)|;
      SameBody(s[n..], t[n..], e.bytes, c);
      assert s == s[..n] + s[n..] && t == t[..n] + t[n..];
    }
  }

  lemma SameBody(s: seq<Octet>, t: seq<Octet>, bytes: seq<Octet>, c: Config)
    requires ValidConfig(c)
    requires IsBody(s, bytes, c.cols, c.group, c.upper, c.display) && IsBody(t, bytes, c.cols, c.group, c.upper, c.display)
    ensures s == t
  {
    hide Column, TextBase, Digit, InColumns;
    var base := TextBase(c.cols, c.group);
    forall k | 0 <= k < |s| ensures s[k] == t[k] {
      if 0 < k < base {
        if InColumns(k, |bytes|, c.group) {
          InColumn(k, |bytes|, c.group);
        }
      } else if base <= k < base + |bytes| {
        var i: nat := k - base;
        assert s[base + i] == c.display(bytes[i]) && t[base + i] == c.display(bytes[i]);
      }
    }
  }

  lemma InColumn(k: int, n: nat, group: nat)
    requires group > 0 && InColumns(k, n, group)
    ensures exists i: nat :: i < n && (k == Column(i, group) || k == Column(i, group) + 1)
  {
  }

  // ----- Which lines are shown -----

  ghost predicate AllZero(s: seq<Octet>) {
    forall k :: 0 <= k < |s| ==> s[k] == 0
  }

  // All lines of the input are full but perhaps the last.
  ghost predicate ProperChunks(chunks: seq<seq<Octet>>, cols: nat) {
    forall i :: 0 <= i < |chunks| ==> 0 < |chunks[i]| <= cols && (i < |chunks| - 1 ==> |chunks[i]| == cols)
  }

  ghost predicate ZeroLine(chunks: seq<seq<Octet>>, j: int, cols: nat) {
    0 <= j < |chunks| && |chunks[j]| == cols && AllZero(chunks[j])
  }

  // A full line of zeros after another is left out.
  ghost predicate Skips(chunks: seq<seq<Octet>>, j: int, c: Config) {
    c.autoskip && ZeroLine(chunks, j, c.cols) && ZeroLine(chunks, j - 1, c.cols)
  }

  ghost function LineAt(chunks: seq<seq<Octet>>, j: nat): Entry
    requires j < |chunks|
  {
    Line(|Joined(chunks[..j])|, chunks[j])
  }

  ghost function StarIf(b: bool): seq<Entry> {
    if b then [Star] else []
  }

  // The entries for the first k lines: each that is not left out, with a star before it if the line
  // before it is.
  ghost function EntriesTo(chunks: seq<seq<Octet>>, k: nat, c: Config): seq<Entry>
    requires k <= |chunks|
  {
    if k == 0 then []
    else EntriesTo(chunks, k - 1, c)
         + if Skips(chunks, k - 1, c) then [] else StarIf(Skips(chunks, k - 2, c)) + [LineAt(chunks, k - 1)]
  }

  // The last line is shown in any case.
  ghost function EntriesOf(chunks: seq<seq<Octet>>, c: Config): seq<Entry> {
    var n := |chunks|;
    EntriesTo(chunks, n, c)
    + if Skips(chunks, n - 1, c) then StarIf(Skips(chunks, n - 2, c)) + [LineAt(chunks, n - 1)] else []
  }

  lemma {:induction false} EntriesSame(chunks: seq<seq<Octet>>, more: seq<seq<Octet>>, k: nat, c: Config)
    requires k <= |chunks|
    ensures EntriesTo(chunks + more, k, c) == EntriesTo(chunks, k, c)
    decreases k
  {
    if k > 0 {
      EntriesSame(chunks, more, k - 1, c);
      assert (chunks + more)[..k - 1] == chunks[..k - 1];
      assert (chunks + more)[k - 1] == chunks[k - 1];
      assert k > 1 ==> (chunks + more)[k - 2] == chunks[k - 2];
    }
  }

  // ----- The file they stand for -----

  ghost function Placed(es: seq<Entry>): seq<Octet> {
    if es == [] then []
    else
      var before := Placed(es[..|es| - 1]);
      match es[|es| - 1]
      case Star => before
      case Line(offset, bytes) => WriteAt(before, offset, bytes)
  }

  lemma PlacedAppend(es: seq<Entry>, e: Entry)
    ensures Placed(es + [e]) == match e case Star => Placed(es) case Line(offset, bytes) => WriteAt(Placed(es), offset, bytes)
  {
    assert (es + [e])[..|es|] == es;
  }

  // Every line starts at or after the end of what is there before it, and shows something.
  ghost predicate Ascending(es: seq<Entry>) {
    forall i :: 0 <= i < |es| && es[i].Line? ==> |Placed(es[..i])| <= es[i].offset && es[i].bytes != []
  }

  lemma AscendingAppend(es: seq<Entry>, e: Entry)
    requires Ascending(es) && (e.Line? ==> |Placed(es)| <= e.offset && e.bytes != [])
    ensures Ascending(es + [e])
  {
    hide Placed;
    forall i | 0 <= i < |es + [e]| && (es + [e])[i].Line?
      ensures |Placed((es + [e])[..i])| <= (es + [e])[i].offset && (es + [e])[i].bytes != []
    {
      assert (es + [e])[..i] == es[..i];
      assert i == |es| ==> es[..i] == es;
    }
  }

  // The zeros left out at the end of a file, added again.
  ghost function Filled(file: seq<Octet>, n: nat): seq<Octet>
    requires |file| <= n
  {
    file + Zeros(n - |file|)
  }

  lemma WriteAfter(file: seq<Octet>, n: nat, data: seq<Octet>)
    requires |file| <= n && data != []
    ensures WriteAt(file, n, data) == Filled(file, n) + data
  {
  }

  lemma FillZeros(file: seq<Octet>, n: nat, data: seq<Octet>)
    requires |file| <= n && AllZero(data)
    ensures Filled(file, n + |data|) == Filled(file, n) + data
  {
  }

  // A line that is shown, with or without a star before it.
  lemma ShowLine(es: seq<Entry>, star: bool, e: Entry, data: seq<Octet>)
    requires Ascending(es) && |Placed(es)| <= |data| && Filled(Placed(es), |data|) == data
    requires e.Line? && e.offset == |data| && e.bytes != []
    ensures var es' := es + (StarIf(star) + [e]);
            Ascending(es') && Placed(es') == data + e.bytes
  {
    hide Placed, Ascending, WriteAt, Filled;
    var es1 := es + StarIf(star);
    if star {
      PlacedAppend(es, Star);
      AscendingAppend(es, Star);
    } else {
      assert es1 == es;
    }
    assert es + (StarIf(star) + [e]) == es1 + [e];
    PlacedAppend(es1, e);
    AscendingAppend(es1, e);
    WriteAfter(Placed(es1), |data|, e.bytes);
  }

  lemma {:induction false} PlacedTo(chunks: seq<seq<Octet>>, k: nat, c: Config)
    requires k <= |chunks| && ProperChunks(chunks, c.cols)
    ensures var es, data := EntriesTo(chunks, k, c), Joined(chunks[..k]);
            Ascending(es) && |Placed(es)| <= |data| && Filled(Placed(es), |data|) == data
    decreases k
  {
    hide Placed, WriteAt, Skips;
    if k == 0 {
      PlacedNothing();
    } else {
      PlacedTo(chunks, k - 1, c);
      assert chunks[..k] == chunks[..k - 1] + [chunks[k - 1]];
      JoinedAppend(chunks[..k - 1], chunks[k - 1]);
      var es, data := EntriesTo(chunks, k - 1, c), Joined(chunks[..k - 1]);
      if Skips(chunks, k - 1, c) {
        SkippedIsZero(chunks, k - 1, c);
        FillZeros(Placed(es), |data|, chunks[k - 1]);
        assert es + [] == es;
      } else {
        ShowLine(es, Skips(chunks, k - 2, c), LineAt(chunks, k - 1), data);
      }
    }
  }

  lemma PlacedNothing()
    ensures Placed([]) == [] && Joined([]) == [] && Filled([], 0) == [] && Ascending([])
  {
  }

  lemma SkippedIsZero(chunks: seq<seq<Octet>>, j: nat, c: Config)
    requires Skips(chunks, j, c)
    ensures j < |chunks| && AllZero(chunks[j])
  {
  }

  /** The lines that are shown stand for the whole input, each after the one before, however many
      lines of zeros are left out. */
  lemma EntriesStandForInput(chunks: seq<seq<Octet>>, c: Config)
    requires ProperChunks(chunks, c.cols)
    ensures Ascending(EntriesOf(chunks, c)) && Placed(EntriesOf(chunks, c)) == Joined(chunks)
  {
    hide Placed, WriteAt, Skips, EntriesTo, Filled, Ascending;
    var n := |chunks|;
    assert chunks[..n] == chunks;
    PlacedTo(chunks, n, c);
    var es := EntriesTo(chunks, n, c);
    if Skips(chunks, n - 1, c) {
      SkippedLast(chunks, c);
      PlacedTo(chunks, n - 1, c);
      assert chunks == chunks[..n - 1] + [chunks[n - 1]];
      JoinedAppend(chunks[..n - 1], chunks[n - 1]);
      ShowLine(es, Skips(chunks, n - 2, c), LineAt(chunks, n - 1), Joined(chunks[..n - 1]));
    } else {
      assert es + [] == es;
      LastIsShown(chunks, c);
    }
  }

  lemma SkippedLast(chunks: seq<seq<Octet>>, c: Config)
    requires Skips(chunks, |chunks| - 1, c)
    ensures |chunks| > 0 && EntriesTo(chunks, |chunks|, c) == EntriesTo(chunks, |chunks| - 1, c)
  {
  }

  lemma LastIsShown(chunks: seq<seq<Octet>>, c: Config)
    requires ProperChunks(chunks, c.cols) && !Skips(chunks, |chunks| - 1, c)
    ensures Placed(EntriesTo(chunks, |chunks|, c)) == Joined(chunks)
  {
    hide Placed, WriteAt, Skips;
    var n := |chunks|;
    if n == 0 {
      PlacedNothing();
    } else {
      PlacedTo(chunks, n - 1, c);
      assert chunks == chunks[..n - 1] + [chunks[n - 1]];
      JoinedAppend(chunks[..n - 1], chunks[n - 1]);
      ShowLine(EntriesTo(chunks, n - 1, c), Skips(chunks, n - 2, c), LineAt(chunks, n - 1), Joined(chunks[..n - 1]));
    }
  }
}
