/** How the master puts lines together from the chunks it reads (opdi_MessageQueueDevice.cpp). */
module LineAssembler {
  import opened Constants
  import opened Frames
  import opened Numbers
  import opened Wire
  import opened EncryptedWire

  // ------------------------------------------------------------ lines of a stream

  /** The complete lines of a stream, without their terminators. */
  function Lines(s: seq<byte>): seq<seq<byte>>
    decreases |s|
  {
    if TERMINATOR !in s then [] else [s[..LineEnd(s)]] + Lines(s[LineEnd(s) + 1..])
  }

  /** The bytes behind the last terminator. */
  function Rest(s: seq<byte>): (r: seq<byte>)
    ensures TERMINATOR !in r
    decreases |s|
  {
    if TERMINATOR !in s then s else Rest(s[LineEnd(s) + 1..])
  }

  lemma LinesCons(line: seq<byte>, s: seq<byte>)
    requires TERMINATOR !in line
    ensures Lines(line + [TERMINATOR] + s) == [line] + Lines(s) && Rest(line + [TERMINATOR] + s) == Rest(s)
  {
    LineEndIs(line, s);
  }

  /** Lines, each with its terminator. */
  function Terminated(lines: seq<seq<byte>>): seq<byte> {
    if lines == [] then [] else lines[0] + [TERMINATOR] + Terminated(lines[1..])
  }

  lemma {:induction false} LinesRebuild(s: seq<byte>)
    ensures s == Terminated(Lines(s)) + Rest(s) && forall i | 0 <= i < |Lines(s)| :: TERMINATOR !in Lines(s)[i]
    decreases |s|
  {
    hide LineEnd;
    if TERMINATOR in s {
      var k := LineEnd(s);
      var line, later := s[..k], s[k + 1..];
      assert s == line + [TERMINATOR] + later;
      LinesRebuild(later);
      assert Lines(s)[1..] == Lines(later);
      assert line + [TERMINATOR] + (Terminated(Lines(later)) + Rest(later)) == line + [TERMINATOR] + Terminated(Lines(later)) + Rest(later);
    }
  }

  lemma {:induction false} LinesOfTerminated(lines: seq<seq<byte>>, rest: seq<byte>)
    requires TERMINATOR !in rest && forall i | 0 <= i < |lines| :: TERMINATOR !in lines[i]
    ensures Lines(Terminated(lines) + rest) == lines && Rest(Terminated(lines) + rest) == rest
    decreases |lines|
  {
    hide Lines, Rest;
    if lines == [] {
      assert Terminated(lines) + rest == rest;
      NoLines(rest);
    } else {
      var later := Terminated(lines[1..]) + rest;
      assert Terminated(lines) + rest == lines[0] + [TERMINATOR] + later;
      LinesOfTerminated(lines[1..], rest);
      LinesCons(lines[0], later);
    }
  }

  /** Lines and rest are the one way to cut a stream at its terminators, and nothing of it is lost. */
  lemma LinesIff(s: seq<byte>, lines: seq<seq<byte>>, rest: seq<byte>)
    ensures Lines(s) == lines && Rest(s) == rest <==>
            s == Terminated(lines) + rest && TERMINATOR !in rest && forall i | 0 <= i < |lines| :: TERMINATOR !in lines[i]
  {
    hide Lines, Rest, Terminated;
    LinesRebuild(s);
    if TERMINATOR !in rest && forall i | 0 <= i < |lines| :: TERMINATOR !in lines[i] {
      LinesOfTerminated(lines, rest);
    }
  }

  /** A stream cut in two: what is complete in the first piece is not touched by the second, and
      only the rest of the first piece matters for the second. */
  lemma {:induction false} LinesConcat(s: seq<byte>, t: seq<byte>)
    ensures Lines(s + t) == Lines(s) + Lines(Rest(s) + t) && Rest(s + t) == Rest(Rest(s) + t)
    decreases |s|
  {
    hide LineEnd;
    if TERMINATOR in s {
      var k := LineEnd(s);
      var line, later := s[..k], s[k + 1..];
      assert s == line + [TERMINATOR] + later;
      assert s + t == line + [TERMINATOR] + (later + t);
      LinesCons(line, later + t);
      LinesConcat(later, t);
    }
  }

  function Concat(chunks: seq<seq<byte>>): seq<byte> {
    if chunks == [] then [] else Concat(chunks[..|chunks| - 1]) + chunks[|chunks| - 1]
  }

  // ------------------------------------------------------------ blocks

  /** One deciphered block behind the bytes of an unfinished line: the line it ends, if any, and
      what is left. The rest of a block that ends a line is dropped. */
  function AfterBlock(message: seq<byte>, block: seq<byte>): (seq<seq<byte>>, seq<byte>) {
    if TERMINATOR in block then ([message + block[..LineEnd(block)]], []) else ([], message + block)
  }

  function AfterBlocks(message: seq<byte>, x: seq<byte>, b: nat): (seq<seq<byte>>, seq<byte>)
    requires b > 0 && Whole(x, b)
    decreases |x|
  {
    if x == [] then ([], message)
    else
      var first := AfterBlock(message, x[..b]);
      var later := AfterBlocks(first.1, x[b..], b);
      (first.0 + later.0, later.1)
  }

  lemma AfterFirstBlock(message: seq<byte>, x: seq<byte>, b: nat)
    requires b > 0 && Whole(x, b) && x != []
    ensures |x| >= b && Whole(x[b..], b)
    ensures var first := AfterBlock(message, x[..b]);
            var later := AfterBlocks(first.1, x[b..], b);
            AfterBlocks(message, x, b) == (first.0 + later.0, later.1)
  {}

  /** The blocks of a padded line give that line and nothing else. */
  lemma {:induction false} PaddedLineAssembled(x: seq<byte>, done: nat, line: seq<byte>, b: nat)
    requires b > 0 && Holding(x, line, b) && done <= |line| && Whole(x[done..], b)
    ensures AfterBlocks(x[..done], x[done..], b) == ([line], [])
    decreases |x| - done
  {
    hide AfterBlock;
    var z := x[done..];
    AfterFirstBlock(x[..done], z, b);
    assert z[..b] == x[done..done + b] && z[b..] == x[done + b..];
    if done + b <= |line| {
      NoEndYet(x, done, line, b);
      PaddedLineAssembled(x, done + b, line, b);
    } else {
      LastBlockEnds(x, done, line, b);
      WholeHasBlocks(z[b..], b);
      assert z[b..] == [];
      assert [line] + [] == [line];
    }
    if done + b <= |line| {
      assert [] + [line] == [line];
    }
  }

  lemma NoEndYet(x: seq<byte>, done: nat, line: seq<byte>, b: nat)
    requires Holding(x, line, b) && done + b <= |line|
    ensures AfterBlock(x[..done], x[done..done + b]) == ([], x[..done + b])
  {
    var block := x[done..done + b];
    forall k | 0 <= k < b
      ensures block[k] != TERMINATOR
    {
      assert block[k] == x[..|line|][done + k] == line[done + k];
    }
    assert x[..done] + block == x[..done + b];
  }

  lemma LastBlockEnds(x: seq<byte>, done: nat, line: seq<byte>, b: nat)
    requires Holding(x, line, b) && done <= |line| < done + b <= |x|
    ensures AfterBlock(x[..done], x[done..done + b]) == ([line], [])
  {
    var block, k := x[done..done + b], |line| - done;
    assert block[..k] == x[..|line|][done..] == line[done..];
    assert block == line[done..] + [TERMINATOR] + block[k + 1..];
    LineEndIs(line[done..], block[k + 1..]);
    assert x[..done] == x[..|line|][..done] == line[..done];
    assert line[..done] + line[done..] == line;
  }

  lemma {:induction false} BlocksConcat(message: seq<byte>, x: seq<byte>, y: seq<byte>, b: nat)
    requires b > 0 && Whole(x, b) && Whole(y, b)
    ensures Whole(x + y, b)
    ensures var first := AfterBlocks(message, x, b);
            var later := AfterBlocks(first.1, y, b);
            AfterBlocks(message, x + y, b) == (first.0 + later.0, later.1)
    decreases |x|
  {
    hide AfterBlock;
    if x == [] {
      assert x + y == y;
      var later := AfterBlocks(message, y, b);
      assert [] + later.0 == later.0;
    } else {
      assert (x + y)[..b] == x[..b] && (x + y)[b..] == x[b..] + y;
      var front := AfterBlock(message, x[..b]);
      BlocksConcat(front.1, x[b..], y, b);
      var middle := AfterBlocks(front.1, x[b..], b);
      var later := AfterBlocks(middle.1, y, b);
      assert front.0 + (middle.0 + later.0) == front.0 + middle.0 + later.0;
    }
  }

  // ------------------------------------------------------------ what the slave sends

  /** The lines of messages. */
  function LinesOf(ms: seq<Msg>): (ls: seq<seq<byte>>)
    ensures |ls| == |ms|
  {
    seq(|ms|, i requires 0 <= i < |ms| => Line(ms[i].channel, ms[i].payload))
  }

  ghost predicate Writable(m: Msg) {
    m.channel < 0x1_0000 && NUL !in m.payload && TERMINATOR !in m.payload
  }

  /** From the frames of the slave the master gets their lines, one for one. */
  lemma {:induction false} FramesAssembled(ms: seq<Msg>)
    requires forall i | 0 <= i < |ms| :: Writable(ms[i])
    ensures Lines(Sent(ms)) == LinesOf(ms) && Rest(Sent(ms)) == []
    decreases |ms|
  {
    hide Lines, Rest, Line;
    if ms == [] {
      NoLines([]);
    } else {
      LineBytes(ms[0]);
      LinesCons(Line(ms[0].channel, ms[0].payload), Sent(ms[1..]));
      FramesAssembled(ms[1..]);
    }
  }

  /** The plain text of padded messages, one behind the other. */
  ghost function PlainBlocks(ps: seq<Padded>, b: nat): (x: seq<byte>)
    requires b > 0
  {
    if ps == [] then [] else Frame(ps[0].msg) + ps[0].pad + PlainBlocks(ps[1..], b)
  }

  /** So it does from the deciphered blocks, whatever the padding. */
  lemma {:induction false} PaddedFramesAssembled(ps: seq<Padded>, b: nat)
    requires b > 0
    requires forall i | 0 <= i < |ps| :: Writable(ps[i].msg) && Padding(Frame(ps[i].msg), ps[i].pad, b)
    ensures Whole(PlainBlocks(ps, b), b)
    ensures AfterBlocks([], PlainBlocks(ps, b), b) == (LinesOf(Messages(ps)), [])
    decreases |ps|
  {
    hide Line, AfterBlocks, Whole;
    if ps == [] {
      NoBlocks(b);
    } else {
      var m := ps[0].msg;
      var x, line := Frame(m) + ps[0].pad, Line(m.channel, m.payload);
      LineBytes(m);
      PaddedFramesAssembled(ps[1..], b);
      assert Writable(m) && Padding(Frame(m), ps[0].pad, b);
      assert x[0..] == x && x[..0] == [] && x[..|line|] == line;
      PaddedLineAssembled(x, 0, line, b);
      BlocksConcat([], x, PlainBlocks(ps[1..], b), b);
      assert LinesOf(Messages(ps)) == [line] + LinesOf(Messages(ps[1..]));
    }
  }

  lemma NoBlocks(b: nat)
    requires b > 0
    ensures Whole([], b) && AfterBlocks([], [], b) == ([], [])
  {}

  // ------------------------------------------------------------ the loops of run

  class MessageProcessor {
    /** The bytes of the line being read, how many there are, and the lines that went to decode. */
    var message: seq<byte>
    var bytesProcessed: nat
    var decoded: seq<seq<byte>>

    ghost predicate Valid()
      reads this
    {
      bytesProcessed == |message| && TERMINATOR !in message
    }

    constructor ()
      ensures Valid() && message == [] && decoded == []
    {
      message, bytesProcessed, decoded := [], 0, [];
    }

    /** Appends bytes of the buffer to the message, up to a terminator. */
    method Gather(buffer: seq<byte>, from: nat) returns (terminatorPos: int, bufferEnd: nat)
      requires Valid() && from <= |buffer|
      modifies `message, `bytesProcessed
      ensures TERMINATOR !in buffer[from..] ==>
                terminatorPos == -1 && bufferEnd == |buffer| && Valid() && message == old(message) + buffer[from..]
      ensures TERMINATOR in buffer[from..] ==>
                && bufferEnd == from + LineEnd(buffer[from..]) && terminatorPos == |old(message)| + bufferEnd - from
                && message == old(message) + buffer[from..bufferEnd] + [NUL]
    {
      hide LineEnd;
      terminatorPos, bufferEnd := -1, from;
      while bufferEnd < |buffer|
        invariant from <= bufferEnd <= |buffer| && terminatorPos == -1
        invariant message == old(message) + buffer[from..bufferEnd] && bytesProcessed == |message|
        invariant TERMINATOR !in buffer[from..bufferEnd]
      {
        if buffer[bufferEnd] == TERMINATOR {
          EndFound(buffer, from, bufferEnd);
          terminatorPos := bytesProcessed;
          message := message + [NUL];
          return;
        }
        assert buffer[from..bufferEnd + 1] == buffer[from..bufferEnd] + [buffer[bufferEnd]];
        message := message + [buffer[bufferEnd]];
        bytesProcessed, bufferEnd := bytesProcessed + 1, bufferEnd + 1;
      }
    }

    /** One turn of run: a chunk from a plain link, or a deciphered block. */
    method ProcessChunk(buffer: seq<byte>, encrypted: bool)
      requires Valid()
      modifies this
      ensures Valid()
      ensures Processed(old(decoded), old(message), buffer, encrypted)
    {
      hide Lines, Rest, AfterBlock, LineEnd;
      ghost var before, first, s := decoded, message, message + buffer;
      ghost var line, start := message, 0;
      assert buffer[0..] == buffer;
      var terminatorPos, bufferEnd := Gather(buffer, 0);
      if terminatorPos == -1 {
        NoLines(s);
        NoEndInBlock(first, buffer);
      }
      while terminatorPos > -1
        invariant terminatorPos == -1 ==> Valid() && Processed(before, first, buffer, encrypted)
        invariant terminatorPos != -1 ==> Pending(line, buffer, start, bufferEnd, terminatorPos)
        invariant terminatorPos != -1 && encrypted ==> start == 0 && line == first && decoded == before
        invariant terminatorPos != -1 && !encrypted ==>
                    before + Lines(s) == decoded + Lines(line + buffer[start..]) && Rest(s) == Rest(line + buffer[start..])
        decreases |buffer| - bufferEnd, terminatorPos
      {
        NextLine(line, buffer, start, bufferEnd);
        ghost var known, later := decoded, Lines(buffer[bufferEnd + 1..]);
        if encrypted {
          EndInBlock(first, buffer);
        }
        TakeLine(line, buffer, start, bufferEnd, terminatorPos);
        assert known + ([line + buffer[start..bufferEnd]] + later) == decoded + later;
        terminatorPos, bufferEnd := -1, bufferEnd + 1;
        line, start := [], bufferEnd;
        assert [] + buffer[start..] == buffer[start..];
        if |buffer| > bufferEnd && !encrypted {
          terminatorPos, bufferEnd := Gather(buffer, bufferEnd);
        }
        if terminatorPos == -1 && !encrypted {
          NoLines(buffer[start..]);
        }
      }
    }

    /** The complete line goes to decode, and a new message begins. */
    method TakeLine(ghost line: seq<byte>, ghost buffer: seq<byte>, ghost start: nat, ghost bufferEnd: nat, terminatorPos: int)
      requires Pending(line, buffer, start, bufferEnd, terminatorPos)
      modifies this
      ensures Valid() && message == [] && decoded == old(decoded) + [line + buffer[start..bufferEnd]]
    {
      hide LineEnd;
      var part := message[..terminatorPos + 1];
      assert part[..terminatorPos] == line + buffer[start..bufferEnd];
      decoded := decoded + [part[..terminatorPos]];
      bytesProcessed, message := 0, [];
    }

    /** A terminator was found at bufferEnd; the line began with the bytes of line and goes on in
        the buffer at position start. */
    ghost predicate Pending(line: seq<byte>, buffer: seq<byte>, start: nat, bufferEnd: nat, terminatorPos: int)
      reads `message
    {
      && start <= bufferEnd < |buffer| && TERMINATOR in buffer[start..] && bufferEnd == start + LineEnd(buffer[start..])
      && TERMINATOR !in line && terminatorPos == |line| + bufferEnd - start
      && message == line + buffer[start..bufferEnd] + [NUL]
    }

    /** What a turn has done to the lines before and the message first. */
    ghost predicate Processed(before: seq<seq<byte>>, first: seq<byte>, buffer: seq<byte>, encrypted: bool)
      reads `message, `decoded
    {
      if encrypted then (decoded, message) == (before + AfterBlock(first, buffer).0, AfterBlock(first, buffer).1)
      else decoded == before + Lines(first + buffer) && message == Rest(first + buffer)
    }

    /** run over the chunks of a plain link: the lines that go to decode are those of the stream,
        however it was cut. */
    method Run(chunks: seq<seq<byte>>)
      requires Valid() && message == []
      modifies this
      ensures Valid() && decoded == old(decoded) + Lines(Concat(chunks)) && message == Rest(Concat(chunks))
    {
      hide Lines, Rest;
      NoLines([]);
      var i := 0;
      while i < |chunks|
        invariant 0 <= i <= |chunks| && Valid()
        invariant decoded == old(decoded) + Lines(Concat(chunks[..i])) && message == Rest(Concat(chunks[..i]))
      {
        assert chunks[..i + 1][..i] == chunks[..i];
        LinesConcat(Concat(chunks[..i]), chunks[i]);
        ghost var before := Lines(Concat(chunks[..i]));
        ProcessChunk(chunks[i], false);
        assert old(decoded) + (before + Lines(Rest(Concat(chunks[..i])) + chunks[i])) ==
               old(decoded) + before + Lines(Rest(Concat(chunks[..i])) + chunks[i]);
        i := i + 1;
      }
      assert chunks[..|chunks|] == chunks;
    }

    /** run over the deciphered blocks of an encrypted link. */
    method RunBlocks(x: seq<byte>, b: nat)
      requires Valid() && b > 0 && Whole(x, b)
      modifies this
      ensures Valid()
      ensures var a := AfterBlocks(old(message), x, b); decoded == old(decoded) + a.0 && message == a.1
    {
      hide AfterBlock, Whole;
      ghost var all := (decoded + AfterBlocks(message, x, b).0, AfterBlocks(message, x, b).1);
      assert x[0..] == x;
      var i := 0;
      while i < |x|
        invariant i <= |x| && Valid() && Whole(x[i..], b)
        invariant decoded + AfterBlocks(message, x[i..], b).0 == all.0 && AfterBlocks(message, x[i..], b).1 == all.1
      {
        AfterFirstBlock(message, x[i..], b);
        assert x[i..][..b] == x[i..i + b] && x[i..][b..] == x[i + b..];
        ghost var first := AfterBlock(message, x[i..i + b]);
        ghost var later := AfterBlocks(first.1, x[i + b..], b);
        assert decoded + (first.0 + later.0) == decoded + first.0 + later.0;
        ProcessChunk(x[i..i + b], true);
        i := i + b;
      }
    }
  }

  lemma EndFound(buffer: seq<byte>, from: nat, end: nat)
    requires from <= end < |buffer| && buffer[end] == TERMINATOR && TERMINATOR !in buffer[from..end]
    ensures TERMINATOR in buffer[from..] && end == from + LineEnd(buffer[from..])
  {
    LineEndIs(buffer[from..end], buffer[end + 1..]);
    assert buffer[from..] == buffer[from..end] + [TERMINATOR] + buffer[end + 1..];
  }

  lemma NoEndInBlock(message: seq<byte>, block: seq<byte>)
    requires TERMINATOR !in block
    ensures AfterBlock(message, block) == ([], message + block)
  {}

  lemma EndInBlock(message: seq<byte>, block: seq<byte>)
    requires TERMINATOR in block
    ensures AfterBlock(message, block) == ([message + block[..LineEnd(block)]], [])
  {}

  lemma NoLines(s: seq<byte>)
    requires TERMINATOR !in s
    ensures Lines(s) == [] && Rest(s) == s
  {}

  lemma NextLine(line: seq<byte>, buffer: seq<byte>, start: nat, end: nat)
    requires start <= end < |buffer| && TERMINATOR !in line
    requires TERMINATOR in buffer[start..] && end == start + LineEnd(buffer[start..])
    ensures var s := line + buffer[start..];
            Lines(s) == [line + buffer[start..end]] + Lines(buffer[end + 1..]) && Rest(s) == Rest(buffer[end + 1..])
  {
    var found := line + buffer[start..end];
    assert buffer[start..][..end - start] == buffer[start..end];
    assert line + buffer[start..] == found + [TERMINATOR] + buffer[end + 1..];
    LinesCons(found, buffer[end + 1..]);
  }
}
