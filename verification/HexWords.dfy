/** Collecting hexadecimal digits in a 64-bit word, and writing it out an octet at a time. */
module HexWords {
  import opened HexBits
  import opened HexDigits
  import opened HexStreams

  // The digits so far, the latest lowest, and how many there were.
  datatype Accum = Accum(accum: bv64, len: nat)

  // The eight octets of a word, the highest first.
  function WordOctets(x: bv64): (r: seq<Octet>)
    ensures |r| == 8
  {
    [((x >> 56) & 0xff) as bv8, ((x >> 48) & 0xff) as bv8, ((x >> 40) & 0xff) as bv8, ((x >> 32) & 0xff) as bv8,
     ((x >> 24) & 0xff) as bv8, ((x >> 16) & 0xff) as bv8, ((x >> 8) & 0xff) as bv8, (x & 0xff) as bv8]
  }

  type Nibbles = ns: seq<nat> | forall k :: 0 <= k < |ns| ==> ns[k] < 16

  function Nibble(n: int): bv64
    requires 0 <= n < 16
  {
    n as bv64
  }

  // The word after these digits.
  ghost function Packed(ns: Nibbles): bv64 {
    if ns == [] then 0 else Shifted4(Packed(ns[..|ns| - 1]), ns[|ns| - 1])
  }

  function Shifted4(x: bv64, n: nat): bv64
    requires n < 16
  {
    (x << 4) | Nibble(n)
  }

  // The octet that two digits spell.
  function Pair(hi: nat, lo: nat): Octet
    requires hi < 16 && lo < 16
  {
    (((Nibble(hi) << 4) | Nibble(lo)) & 0xff) as bv8
  }

  lemma NibbleSmall(n: nat)
    requires n < 16
    ensures Nibble(n) < 16
  {
  }

  lemma TwoMoreBits(x: bv64, h: bv64, l: bv64)
    requires h < 16 && l < 16
    ensures WordOctets((((x << 4) | h) << 4) | l) == WordOctets(x)[1..] + [(((h << 4) | l) & 0xff) as bv8]
  {
  }

  lemma TwoMore(x: bv64, h: nat, l: nat)
    requires h < 16 && l < 16
    ensures WordOctets(Shifted4(Shifted4(x, h), l)) == WordOctets(x)[1..] + [Pair(h, l)]
  {
    hide WordOctets, Nibble;
    NibbleSmall(h);
    NibbleSmall(l);
    TwoMoreBits(x, Nibble(h), Nibble(l));
  }

  // The octets that digits spell two by two.
  ghost function Pairs(ns: Nibbles): seq<Octet> {
    if |ns| < 2 then [] else Pairs(ns[..|ns| - 2]) + [Pair(ns[|ns| - 2], ns[|ns| - 1])]
  }

  lemma {:induction false} PairsLength(ns: Nibbles)
    ensures |Pairs(ns)| == |ns| / 2
    decreases |ns|
  {
    if |ns| >= 2 {
      PairsLength(ns[..|ns| - 2]);
    }
  }

  lemma {:induction false} PairsAppend(ns: Nibbles, ms: Nibbles)
    requires |ns| % 2 == 0 && |ms| % 2 == 0
    ensures Pairs(ns + ms) == Pairs(ns) + Pairs(ms)
    decreases |ms|
  {
    hide Pair;
    if ms == [] {
      assert ns + ms == ns;
    } else {
      PairsAppend(ns, ms[..|ms| - 2]);
      assert (ns + ms)[..|ns + ms| - 2] == ns + ms[..|ms| - 2];
    }
  }

  // The lowest octets of the word are those the last digits spell.
  lemma {:induction false} LastOctets(ns: Nibbles, m: nat)
    requires m <= 8 && 2 * m <= |ns|
    ensures WordOctets(Packed(ns))[8 - m..] == Pairs(ns[|ns| - 2 * m..])
    decreases m
  {
    hide WordOctets, Pair, Packed, Pairs;
    PairsNothing();
    assert ns[|ns|..] == [];
    if m > 0 {
      var n := |ns| - 2;
      var before := ns[..n];
      LastOctets(before, m - 1);
      PackedTwice(ns);
      OneMorePair(ns, m);
      assert WordOctets(Packed(ns))[8 - m..] == WordOctets(Packed(before))[8 - (m - 1)..] + [Pair(ns[n], ns[n + 1])];
    }
  }

  lemma OneMorePair(ns: Nibbles, m: nat)
    requires 0 < m && 2 * m <= |ns|
    ensures var n := |ns| - 2;
            Pairs(ns[|ns| - 2 * m..]) == Pairs(ns[..n][n - 2 * (m - 1)..]) + [Pair(ns[n], ns[n + 1])]
  {
    hide Pair;
    var n := |ns| - 2;
    var tail := ns[|ns| - 2 * m..];
    assert tail[..|tail| - 2] == ns[..n][n - 2 * (m - 1)..];
    assert tail[|tail| - 2] == ns[n] && tail[|tail| - 1] == ns[n + 1];
  }

  lemma PackedTwice(ns: Nibbles)
    requires |ns| >= 2
    ensures WordOctets(Packed(ns)) == WordOctets(Packed(ns[..|ns| - 2]))[1..] + [Pair(ns[|ns| - 2], ns[|ns| - 1])]
  {
    hide WordOctets, Nibble, Shifted4, Pair;
    var n := |ns| - 2;
    assert ns[..n + 1][..n] == ns[..n];
    TwoMore(Packed(ns[..n]), ns[n], ns[n + 1]);
  }

  // The lowest so many octets moved to the top.
  function MovedUp(x: bv64, n: nat): bv64
    requires 0 < n < 8
  {
    Up(x, ((8 - n) * 8) as bv64)
  }

  function Up(x: bv64, bits: bv64): bv64
    requires bits < 64
  {
    x << bits
  }

  lemma OneUp(x: bv64)
    ensures WordOctets(Up(x, 8))[..7] == WordOctets(x)[1..]
  {
  }

  lemma Up16(x: bv64)
    ensures Up(Up(x, 8), 8) == Up(x, 16)
  {
  }

  lemma Up24(x: bv64)
    ensures Up(Up(x, 16), 8) == Up(x, 24)
  {
  }

  lemma Up32(x: bv64)
    ensures Up(Up(x, 24), 8) == Up(x, 32)
  {
  }

  lemma Up40(x: bv64)
    ensures Up(Up(x, 32), 8) == Up(x, 40)
  {
  }

  lemma Up48(x: bv64)
    ensures Up(Up(x, 40), 8) == Up(x, 48)
  {
  }

  lemma Up56(x: bv64)
    ensures Up(Up(x, 48), 8) == Up(x, 56)
  {
  }

  lemma UpAgain(x: bv64, n: nat)
    requires 0 < n < 7
    ensures Up(MovedUp(x, n + 1), 8) == MovedUp(x, n)
  {
    hide Up;
    match n
    case 1 => Up56(x);
    case 2 => Up48(x);
    case 3 => Up40(x);
    case 4 => Up32(x);
    case 5 => Up24(x);
    case _ => Up16(x);
  }

  lemma {:induction false} TopOctets(x: bv64, n: nat)
    requires 0 < n < 8
    ensures WordOctets(MovedUp(x, n))[..n] == WordOctets(x)[8 - n..]
    decreases 8 - n
  {
    hide WordOctets, Up;
    if n == 7 {
      OneUp(x);
    } else {
      TopOctets(x, n + 1);
      UpAgain(x, n);
      OneUp(MovedUp(x, n + 1));
      var was, now := WordOctets(MovedUp(x, n + 1)), WordOctets(MovedUp(x, n));
      assert now[..n] == now[..7][..n] == was[1..][..n] == was[..n + 1][1..] == WordOctets(x)[8 - n..];
    }
  }

  // What has been written after so many digits, and what is written in all.
  ghost function Flushed(ns: Nibbles): seq<Octet> {
    Pairs(ns[..|ns| - |ns| % 16])
  }

  ghost function Spelled(ns: Nibbles): seq<Octet> {
    Flushed(ns) + Pairs(ns[|ns| - 2 * (|ns| / 2 % 8)..])
  }

  lemma SpelledInPairs(ns: Nibbles)
    requires |ns| % 2 == 0
    ensures Spelled(ns) == Pairs(ns)
  {
    hide Pairs;
    EvenRest(|ns|);
    SplitPairs(ns, |ns| - |ns| % 16);
  }

  lemma SplitPairs(ns: Nibbles, k: nat)
    requires k <= |ns| && k % 2 == 0 && (|ns| - k) % 2 == 0
    ensures Pairs(ns) == Pairs(ns[..k]) + Pairs(ns[k..])
  {
    hide Pairs;
    assert ns == ns[..k] + ns[k..];
    PairsAppend(ns[..k], ns[k..]);
  }

  lemma EvenRest(n: nat)
    requires n % 2 == 0
    ensures 2 * (n / 2 % 8) == n % 16 && (n - n % 16) % 2 == 0 && (n % 16) % 2 == 0
  {
    var q, h := n / 16, n / 2;
    Twice(h, q, n % 16);
    TwiceIsEven(8 * q);
    TwiceIsEven(h - 8 * q);
  }

  lemma Twice(h: nat, q: nat, r: nat)
    requires 2 * h == 16 * q + r && r < 16
    ensures h % 8 == h - 8 * q && r == 2 * (h - 8 * q)
  {
  }

  lemma TwiceIsEven(n: int)
    ensures (2 * n) % 2 == 0
  {
  }

  // The data has been written over a file from a position on, unless there was an error before, the
  // device has failed or the position would not fit.
  ghost predicate Written(b: Output, was: seq<Octet>, at: nat, erred: bool, data: seq<Octet>)
    reads b
  {
    && b.Valid() && (!b.err ==> b.fpos == at + |data| && b.Contents() == WriteAt(was, at, data))
    && (b.err ==> erred || b.faulty || at + |data| > MAX_POSITION)
  }

  method Accumulate(a: Accum, b: Output, c: Octet, ghost ns: Nibbles, ghost was: seq<Octet>, ghost at: nat, ghost erred: bool)
    returns (a': Accum, ghost ns': Nibbles)
    requires a == Accum(Packed(ns), |ns|) && Written(b, was, at, erred, Flushed(ns))
    modifies b
    ensures ns' == if NibbleValue(c) >= 0 then ns + [NibbleValue(c)] else ns
    ensures a' == Accum(Packed(ns'), |ns'|) && Written(b, was, at, erred, Flushed(ns'))
    ensures old(b.err) ==> b.err
  {
    hide WordOctets, WriteAt, Pairs, NibbleValue, Shifted4, Output.Contents;
    var v := NibbleValue(c);
    a', ns' := a, ns;
    if v >= 0 {
      ns' := ns + [v];
      assert ns'[..|ns|] == ns;
      a' := Accum(Shifted4(a.accum, v), a.len + 1);
      if a'.len % 16 == 0 {
        FlushedMore(ns');
        WriteTwice(was, at, Flushed(ns), WordOctets(a'.accum));
        b.Write(WordOctets(a'.accum));
      } else {
        FlushedSame(ns, v);
      }
    }
  }

  lemma FlushedMore(ns: Nibbles)
    requires |ns| > 0 && |ns| % 16 == 0
    ensures Flushed(ns) == Flushed(ns[..|ns| - 1]) + WordOctets(Packed(ns))
  {
    hide WordOctets, Packed, Pairs;
    var k := |ns| - 16;
    LastOctets(ns, 8);
    assert WordOctets(Packed(ns))[0..] == WordOctets(Packed(ns));
    LessOne(|ns|);
    FlushedSplit(ns, k);
  }

  lemma FlushedSplit(ns: Nibbles, k: nat)
    requires k == |ns| - 16 && |ns| % 16 == 0 && (|ns| - 1) - (|ns| - 1) % 16 == k
    ensures Flushed(ns) == Pairs(ns[..k]) + Pairs(ns[k..])
    ensures Flushed(ns[..|ns| - 1]) == Pairs(ns[..k])
  {
    hide Pairs;
    assert ns[..|ns|] == ns;
    EvenToo(|ns|);
    SplitPairs(ns, k);
    assert ns[..|ns| - 1][..k] == ns[..k];
  }

  lemma EvenToo(n: nat)
    requires n % 16 == 0
    ensures n % 2 == 0 && (n - 16) % 2 == 0
  {
    var q := n / 16;
    assert n == 2 * (8 * q) && n - 16 == 2 * (8 * q - 8);
  }

  lemma LessOne(n: nat)
    requires n > 0 && n % 16 == 0
    ensures (n - 1) - (n - 1) % 16 == n - 16
  {
  }

  lemma FlushedSame(ns: Nibbles, v: nat)
    requires v < 16 && (|ns| + 1) % 16 != 0
    ensures Flushed(ns + [v]) == Flushed(ns)
  {
    hide Pairs;
    SameRest(|ns|);
    var k := |ns| - |ns| % 16;
    assert (ns + [v])[..k] == ns[..k];
  }

  lemma SameRest(n: nat)
    requires (n + 1) % 16 != 0
    ensures (n + 1) - (n + 1) % 16 == n - n % 16
  {
  }

  method Finish(a: Accum, b: Output, ghost ns: Nibbles, ghost was: seq<Octet>, ghost at: nat, ghost erred: bool)
    requires a == Accum(Packed(ns), |ns|) && Written(b, was, at, erred, Flushed(ns))
    modifies b
    ensures Written(b, was, at, erred, Spelled(ns)) && (old(b.err) ==> b.err)
  {
    hide WordOctets, WriteAt, Pairs, Packed, MovedUp, Flushed, Output.Contents;
    var n := a.len / 2 % 8;
    PairsNothing();
    if n != 0 {
      LastOctets(ns, n);
      TopOctets(a.accum, n);
      WriteTwice(was, at, Flushed(ns), WordOctets(MovedUp(a.accum, n))[..n]);
      b.Write(WordOctets(MovedUp(a.accum, n))[..n]);
    } else {
      assert ns[|ns|..] == [];
      assert Flushed(ns) + [] == Flushed(ns);
    }
  }

  lemma PairsNothing()
    ensures Pairs([]) == []
  {
  }

  // The digits of a text, whatever stands between them.
  ghost function DigitsIn(s: seq<Octet>): Nibbles
    decreases |s|
  {
    if s == [] then []
    else
      var v := NibbleValue(s[|s| - 1]);
      DigitsIn(s[..|s| - 1]) + if v >= 0 then [v] else []
  }

  /** Writes the octets that the digits of a text spell. */
  method Decode(data: seq<Octet>, b: Output)
    requires b.Valid()
    modifies b
    ensures Written(b, old(b.Contents()), old(b.fpos), old(b.err), Spelled(DigitsIn(data))) && (old(b.err) ==> b.err)
  {
    hide WordOctets, WriteAt, Pairs, NibbleValue, Nibble, Output.Contents, Spelled;
    ghost var was, at, erred := b.Contents(), b.fpos, b.err;
    ghost var ns: Nibbles := [];
    var a := Accum(0, 0);
    NothingFlushed(was, at);
    var i := 0;
    while i < |data|
      invariant 0 <= i <= |data| && ns == DigitsIn(data[..i])
      invariant a == Accum(Packed(ns), |ns|) && Written(b, was, at, erred, Flushed(ns)) && (old(b.err) ==> b.err)
    {
      assert data[..i + 1][..i] == data[..i];
      a, ns := Accumulate(a, b, data[i], ns, was, at, erred);
      i := i + 1;
    }
    assert data[..i] == data;
    Finish(a, b, ns, was, at, erred);
  }

  lemma NothingFlushed(was: seq<Octet>, at: nat)
    ensures Flushed([]) == [] && WriteAt(was, at, []) == was
  {
  }
}
