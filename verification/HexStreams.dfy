/** Buffered input that may come in short reads, and buffered output that may or may not seek. */
module HexStreams {
  import opened HexBits
  import opened HexDigits

  const CAPACITY := 4096
  const MAX_POSITION := 0x7fff_ffff_ffff_ffff

  // ----- Input -----

  // What is still to come from the file, and the part of it that is buffered. Only a faulty device may
  // fail.
  class Input {
    const faulty: bool
    var rest: seq<Octet>
    var buf: seq<Octet>
    var off: nat
    var eof: bool
    var err: bool

    ghost predicate Valid()
      reads this
    {
      off <= |buf| <= CAPACITY && (eof && !err ==> off == |buf| && rest == [])
    }

    // All that is still to be read.
    ghost function Remaining(): seq<Octet>
      reads this
      requires Valid()
    {
      buf[off..] + rest
    }

    // Nothing is buffered and nothing more is read.
    ghost predicate Drained()
      reads this
    {
      eof && off == |buf|
    }

    constructor (data: seq<Octet>, faulty: bool)
      ensures Valid() && Remaining() == data && !err && this.faulty == faulty
    {
      this.faulty := faulty;
      rest, buf, off, eof, err := data, [], 0, false, false;
    }

    // Reads some octets, as many as come, or none at the end or if reading fails.
    method Read(want: nat) returns (got: seq<Octet>, failed: bool)
      requires want > 0
      modifies this`rest
      ensures |got| <= want && (failed ==> faulty)
      ensures failed ==> got == [] && rest == old(rest)
      ensures !failed ==> old(rest) == got + rest && (got == [] ==> rest == [])
    {
      var fails: bool := *;
      if faulty && fails {
        return [], true;
      }
      var n :| 0 < n <= want;
      n := if n > |rest| then |rest| else n;
      got, rest := rest[..n], rest[n..];
      failed := false;
    }

    method Refill()
      requires Valid() && off == |buf|
      modifies this
      ensures Valid() && (old(err) ==> err) && (err ==> old(err) || faulty)
      ensures Remaining() == old(Remaining())
      ensures old(eof) ==> eof && buf == old(buf) && off == old(off) && rest == old(rest) && err == old(err)
      ensures eof ==> off == |buf|
      ensures !eof ==> off < |buf| && |rest| < |old(rest)|
    {
      if !eof {
        var got, failed := Read(CAPACITY);
        err := err || failed;
        buf, off := got, 0;
        eof := got == [];
      }
    }

    // Takes so many octets of what is buffered.
    method Take(n: nat) returns (s: seq<Octet>)
      requires Valid() && n <= |buf| - off
      modifies this`off
      ensures Valid() && off == old(off) + n && s == old(buf[off..off + n]) && s + Remaining() == old(Remaining())
    {
      s := buf[off..off + n];
      assert buf[off..] == s + buf[off + n..];
      assert s + (buf[off + n..] + rest) == buf[off..] + rest;
      off := off + n;
    }

    /** The next octets, so many or as many as are left, however short the reads are. */
    method NextBytes(len: nat) returns (r: seq<Octet>)
      requires Valid()
      modifies this
      ensures Valid() && (old(err) ==> err) && (err ==> old(err) || faulty)
      ensures |r| <= len && r + Remaining() == old(Remaining())
      ensures |r| < len ==> Drained() && (!err ==> Remaining() == [])
      ensures old(Drained()) ==> r == []
    {
      hide Remaining;
      r := [];
      while |r| < len
        invariant Valid() && |r| <= len && (old(err) ==> err) && (err ==> old(err) || faulty) && r + Remaining() == old(Remaining())
        invariant old(Drained()) ==> Drained() && r == []
        decreases |rest|, |buf| - off
      {
        if off == |buf| {
          Refill();
        }
        if len - |r| <= |buf| - off {
          r := Gather(r, len - |r|);
          break;
        }
        r := Gather(r, |buf| - off);
        if eof {
          NothingLeft();
          break;
        }
      }
    }

    lemma NothingLeft()
      requires Valid() && eof && off == |buf|
      ensures !err ==> Remaining() == []
    {
    }

    // The first newline in the buffer, or its end.
    method ScanLine() returns (cut: nat)
      requires Valid()
      ensures off <= cut <= |buf| && Plain(buf[off..cut]) && (cut < |buf| ==> buf[cut] == NEWLINE)
    {
      cut := off;
      while cut < |buf| && buf[cut] != NEWLINE
        invariant off <= cut <= |buf|
        invariant forall k :: off <= k < cut ==> buf[k] != NEWLINE
      {
        cut := cut + 1;
      }
    }

    /** The next line with its newline, or the rest of a file that ends without one, however short the
        reads are. */
    method NextLine() returns (line: seq<Octet>)
      requires Valid()
      modifies this
      ensures Valid() && (old(err) ==> err) && (err ==> old(err) || faulty)
      ensures line + Remaining() == old(Remaining())
      ensures if Plain(line) then !err ==> Remaining() == [] else OneLine(line)
    {
      hide Remaining, Plain, OneLine;
      line := [];
      PlainLines([], []);
      while true
        invariant Valid() && (old(err) ==> err) && (err ==> old(err) || faulty) && Plain(line) && line + Remaining() == old(Remaining())
        decreases |rest|, |buf| - off
      {
        if off == |buf| {
          Refill();
        }
        var cut := ScanLine();
        PlainLines(line, buf[off..cut]);
        if cut < |buf| {
          LineEnds(line, buf, off, cut);
          line := Gather(line, cut + 1 - off);
          break;
        }
        line := Gather(line, cut - off);
        if eof {
          NothingLeft();
          break;
        }
      }
    }

    // Appends so many octets of what is buffered.
    method Gather(line: seq<Octet>, n: nat) returns (r: seq<Octet>)
      requires Valid() && n <= |buf| - off
      modifies this`off
      ensures Valid() && off == old(off) + n && r == line + old(buf[off..off + n])
      ensures r + Remaining() == line + old(Remaining())
    {
      hide Remaining;
      ghost var before := Remaining();
      var part := Take(n);
      assert (line + part) + Remaining() == line + before;
      r := line + part;
    }
  }

  lemma LineEnds(line: seq<Octet>, buf: seq<Octet>, off: nat, cut: nat)
    requires off <= cut < |buf| && buf[cut] == NEWLINE
    ensures line + buf[off..cut + 1] == line + buf[off..cut] + [NEWLINE]
  {
    assert buf[off..cut + 1] == buf[off..cut] + [NEWLINE];
  }

  ghost predicate Plain(s: seq<Octet>) {
    NEWLINE !in s
  }

  // A line with its newline.
  ghost predicate OneLine(s: seq<Octet>) {
    s != [] && s[|s| - 1] == NEWLINE && Plain(s[..|s| - 1])
  }

  lemma PlainLines(s: seq<Octet>, t: seq<Octet>)
    ensures Plain([])
    ensures Plain(s) && Plain(t) ==> Plain(s + t) && OneLine(s + t + [NEWLINE]) && !Plain(s + t + [NEWLINE])
  {
    var line := s + t + [NEWLINE];
    assert line[|line| - 1] == NEWLINE;
    assert line[..|line| - 1] == s + t;
  }

  // ----- Output -----

  function Zeros(n: nat): (z: seq<Octet>)
    ensures |z| == n && forall k :: 0 <= k < n ==> z[k] == 0
  {
    seq(n, _ => 0)
  }

  // The file after writing at a position; a gap before it is filled with zeros.
  function WriteAt(file: seq<Octet>, pos: nat, data: seq<Octet>): (r: seq<Octet>)
    ensures |r| == if data == [] || pos + |data| < |file| then |file| else pos + |data|
  {
    if data == [] then file
    else if pos >= |file| then file + Zeros(pos - |file|) + data
    else if pos + |data| >= |file| then file[..pos] + data
    else file[..pos] + data + file[pos + |data|..]
  }

  lemma WriteTwice(file: seq<Octet>, pos: nat, a: seq<Octet>, b: seq<Octet>)
    ensures WriteAt(WriteAt(file, pos, a), pos + |a|, b) == WriteAt(file, pos, a + b)
  {
    if a == [] {
      assert a + b == b;
    } else if b == [] {
      assert a + b == a;
    } else {
      var x, y := WriteAt(WriteAt(file, pos, a), pos + |a|, b), WriteAt(file, pos, a + b);
      assert |x| == |y|;
      forall k | 0 <= k < |x| ensures x[k] == y[k] {
      }
    }
  }

  // A file that is written through a buffer; seeking may turn out not to be possible. Only a faulty
  // device may fail to write.
  class Output {
    const faulty: bool
    var file: seq<Octet>
    var filePos: nat
    var fpos: nat
    var buf: seq<Octet>
    var err: bool
    var noseek: bool

    ghost predicate Valid()
      reads this
    {
      |buf| < CAPACITY && (!err ==> fpos == filePos + |buf|)
    }

    // The file once all that is buffered is written.
    ghost function Contents(): seq<Octet>
      reads this`file, this`filePos, this`buf
    {
      WriteAt(file, filePos, buf)
    }

    constructor (faulty: bool)
      ensures Valid() && !err && fpos == 0 && Contents() == [] && this.faulty == faulty
    {
      this.faulty := faulty;
      file, filePos, fpos, buf, err, noseek := [], 0, 0, [], false, false;
    }

    // Puts the buffer into the file; if writing fails nothing is known of it.
    method Flush()
      requires |buf| <= CAPACITY && (!err ==> fpos == filePos + |buf|)
      modifies this`file, this`filePos, this`buf, this`err
      ensures Valid() && (old(err) ==> err) && (!err ==> buf == []) && (err ==> old(err) || faulty)
      ensures !err ==> Contents() == old(Contents()) && file == Contents()
    {
      if !err && buf != [] {
        var fails: bool := *;
        if faulty && fails {
          err := true;
        } else {
          file := WriteAt(file, filePos, buf);
          filePos := filePos + |buf|;
        }
        buf := [];
      }
      if err {
        buf := [];
      }
    }

    // Puts some octets into the buffer, and the buffer into the file once it is full.
    method Append(part: seq<Octet>)
      requires Valid() && !err && |buf| + |part| <= CAPACITY
      modifies this`file, this`filePos, this`fpos, this`buf, this`err
      ensures Valid() && (err ==> faulty)
      ensures !err ==> fpos == old(fpos) + |part| && Contents() == WriteAt(old(Contents()), old(fpos), part)
    {
      hide WriteAt;
      WriteTwice(file, filePos, buf, part);
      buf := buf + part;
      fpos := fpos + |part|;
      if |buf| == CAPACITY {
        Flush();
      }
    }

    // Fails only if the device does or the position would not fit.
    method Write(data: seq<Octet>)
      requires Valid()
      modifies this`file, this`filePos, this`fpos, this`buf, this`err
      ensures Valid() && (old(err) ==> err) && (err ==> old(err) || faulty || old(fpos) + |data| > MAX_POSITION)
      ensures !err ==> fpos == old(fpos) + |data| && Contents() == WriteAt(old(Contents()), old(fpos), data)
    {
      hide WriteAt, Contents;
      ghost var was, at := Contents(), fpos;
      err := err || fpos > MAX_POSITION - |data|;
      var off := 0;
      WriteNothing(was, at);
      assert data[..0] == [];
      while !err && off < |data|
        invariant Valid() && 0 <= off <= |data| && (old(err) ==> err)
        invariant err ==> old(err) || faulty || at + |data| > MAX_POSITION
        invariant !err ==> fpos == at + off && Contents() == WriteAt(was, at, data[..off])
      {
        var avail := CAPACITY - |buf|;
        var count := if |data| - off < avail then |data| - off else avail;
        WriteTwice(was, at, data[..off], data[off..off + count]);
        assert data[..off] + data[off..off + count] == data[..off + count];
        Append(data[off..off + count]);
        off := off + count;
      }
      assert data[..|data|] == data;
    }

    // Moves to a position; where seeking fails, zeros are written up to it. Fails only if the device
    // does, or if the position does not fit or lies before the one reached.
    method Seek(pos: nat)
      requires Valid()
      modifies this
      ensures Valid() && (old(err) ==> err) && (err ==> old(err) || faulty || pos < old(fpos) || pos > MAX_POSITION)
      ensures !err ==> fpos == pos && (Contents() == old(Contents()) || (old(fpos) < pos &&
                         Contents() == WriteAt(old(Contents()), old(fpos), Zeros(pos - old(fpos)))))
    {
      hide WriteAt, Contents;
      ghost var was, at := Contents(), fpos;
      if !err && pos != fpos {
        var sought := false;
        if !noseek {
          Flush();
          if err {
            return;
          }
          sought := *;
          noseek := !sought;
        }
        if sought {
          filePos, fpos := pos, pos;
          FlushedContents();
        } else if pos > fpos {
          WriteNothing(was, at);
          assert fpos - at == 0;
          while !err && pos > fpos
            invariant Valid() && (err ==> faulty || pos > MAX_POSITION)
            invariant (!err ==> at <= fpos <= pos && Contents() == WriteAt(was, at, Zeros(fpos - at)))
            decreases if err then 0 else 1, pos - fpos
          {
            WriteTwice(was, at, Zeros(fpos - at), [0]);
            assert Zeros(fpos - at) + [0] == Zeros(fpos + 1 - at);
            Write([0]);
          }
        } else {
          err := true;
        }
      }
    }

    // With nothing buffered the file does not depend on the position.
    lemma FlushedContents()
      requires buf == []
      ensures Contents() == file
    {
    }
  }

  lemma WriteNothing(file: seq<Octet>, pos: nat)
    ensures WriteAt(file, pos, []) == file && Zeros(0) == []
  {
  }
}
