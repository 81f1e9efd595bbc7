/** The encrypted link: messages padded to whole blocks, enciphered block by block, and found
    again in the blocks that arrive. */
module EncryptedWire {
  import opened Constants
  import opened Strings
  import opened Frames
  import opened Numbers
  import opened Sequences
  import opened Wire

  type Block = seq<byte>

  /** A transformation of blocks of b bytes. */
  ghost predicate BlockFunction(f: Block -> Block, b: nat) {
    forall x: Block | |x| == b :: |f(x)| == b
  }

  ghost predicate Inverts(d: Block -> Block, e: Block -> Block, b: nat) {
    && BlockFunction(e, b) && BlockFunction(d, b)
    && forall x: Block | |x| == b :: d(e(x)) == x
  }

  /** What follows a whole number of blocks of b bytes. */
  predicate Whole(x: seq<byte>, b: nat)
    requires b > 0
  {
    x == [] || (|x| >= b && Whole(x[b..], b))
  }

  /** Whole blocks, each enciphered on its own. */
  function Enciphered(e: Block -> Block, b: nat, x: seq<byte>): seq<byte>
    requires b > 0 && Whole(x, b)
  {
    if x == [] then [] else e(x[..b]) + Enciphered(e, b, x[b..])
  }

  /** Bytes that fill up the last block of a frame; a terminator among them would be one. */
  predicate Padding(frame: seq<byte>, pad: seq<byte>, b: nat)
    requires b > 0
  {
    |pad| < b && TERMINATOR !in pad && Whole(frame + pad, b)
  }

  // ------------------------------------------------------------ receiving

  function FirstTerminator(plain: seq<byte>): Option<nat> {
    if TERMINATOR in plain then Some(LineEnd(plain)) else None
  }

  /** get_encrypted over the bytes still to come: buf is the message buffer, pos bytes of it are
      deciphered, part is what is there of the next block. */
  ghost function ReceiveBlocks(d: Block -> Block, b: nat, buf: seq<byte>, pos: nat, part: Block, s: seq<byte>, size: nat): Received
    requires ValidSize(size) && |buf| == size && |part| < b && pos + |part| < size && BlockFunction(d, b)
    decreases |s|, 0
  {
    if s == [] then Starved
    else if pos + |part| + 1 >= size then ReceiveBlocks(d, b, buf, 0, [], s[1..], size)
    else if |part| + 1 < b then ReceiveBlocks(d, b, buf, pos, part + [s[0]], s[1..], size)
    else ReceivePlain(d, b, Splice(buf, pos, d(part + [s[0]])), pos, s[1..], size)
  }

  /** The same with a whole block deciphered at position pos. */
  ghost function ReceivePlain(d: Block -> Block, b: nat, buf: seq<byte>, pos: nat, s: seq<byte>, size: nat): Received
    requires ValidSize(size) && |buf| == size && 0 < b && pos + b < size && BlockFunction(d, b)
    decreases |s|, 1
  {
    var t := FirstTerminator(buf[pos..pos + b]);
    if t.None? then ReceiveBlocks(d, b, buf, pos + b, [], s, size)
    else
      var line := buf[pos + t.value := NUL];
      var h := Heard(Decode(line, size - 9));
      if h.Some? then Got(h.value, s) else ReceiveBlocks(d, b, line, 0, [], s, size)
  }

  /** A whole block that arrives and fits. */
  lemma {:induction false} BlockArrives(d: Block -> Block, b: nat, buf: seq<byte>, pos: nat, part: Block, c: Block, s: seq<byte>, size: nat)
    requires ValidSize(size) && |buf| == size && BlockFunction(d, b)
    requires |part| < b && |part| + |c| == b && pos + b < size
    ensures ReceiveBlocks(d, b, buf, pos, part, c + s, size) == ReceivePlain(d, b, Splice(buf, pos, d(part + c)), pos, s, size)
    decreases |c|
  {
    hide ReceivePlain;
    assert (c + s)[1..] == c[1..] + s && (c + s)[0] == c[0];
    assert part + [c[0]] + c[1..] == part + c;
    if |c| == 1 {
      assert [c[0]] == c && c[1..] + s == s;
    } else {
      BlockArrives(d, b, buf, pos, part + [c[0]], c[1..], s, size);
    }
  }

  /** The line, terminator and padding that the blocks of a message hold. */
  ghost predicate Holding(x: seq<byte>, line: seq<byte>, b: nat) {
    && TERMINATOR !in line && |line| < |x| <= |line| + b && x[..|line|] == line && x[|line|] == TERMINATOR
  }

  lemma WholeHasBlocks(x: seq<byte>, b: nat)
    requires b > 0 && Whole(x, b)
    ensures x == [] || |x| >= b
  {}

  lemma NoneLeft(e: Block -> Block, b: nat, rest: seq<byte>)
    requires b > 0
    ensures Enciphered(e, b, []) + rest == rest
  {
    assert [] + rest == rest;
  }

  /** The blocks of a message arrive, after done bytes of it. The message is heard at its last
      block and nothing is left over, or it is forgotten and the receiver starts anew. */
  lemma {:induction false} BlocksArrive(e: Block -> Block, d: Block -> Block, b: nat, buf: seq<byte>, x: seq<byte>, done: nat,
                                        line: seq<byte>, rest: seq<byte>, size: nat) returns (buf': seq<byte>)
    requires ValidSize(size) && |buf| == size && b > 0 && Inverts(d, e, b)
    requires Holding(x, line, b) && done <= |line| && |x| < size && Whole(x[done..], b)
    requires buf[..done] == x[..done] && SelfContained(UpToNul(line))
    ensures |buf'| == size
    ensures ReceiveBlocks(d, b, buf, done, [], Enciphered(e, b, x[done..]) + rest, size) ==
            if Meaning(UpToNul(line), size).Some? then Got(Meaning(UpToNul(line), size).value, rest)
            else ReceiveBlocks(d, b, buf', 0, [], rest, size)
    decreases |x| - done
  {
    hide ReceiveBlocks, ReceivePlain, Meaning, SelfContained, UpToNul, Enciphered, Whole;
    WholeHasBlocks(x[done..], b);
    var next := FirstBlockArrives(e, d, b, buf, x, done, rest, size);
    if done + b <= |line| {
      NoTerminatorYet(d, b, next, x, done, line, Enciphered(e, b, x[done + b..]) + rest, size);
      buf' := BlocksArrive(e, d, b, next, x, done + b, line, rest, size);
    } else {
      WholeHasBlocks(x[done + b..], b);
      NoneLeft(e, b, rest);
      buf' := LineComplete(d, b, next, x, done, line, rest, size);
    }
  }

  lemma FirstBlockArrives(e: Block -> Block, d: Block -> Block, b: nat, buf: seq<byte>, x: seq<byte>, done: nat,
                          rest: seq<byte>, size: nat) returns (next: seq<byte>)
    requires ValidSize(size) && |buf| == size && b > 0 && Inverts(d, e, b)
    requires done < |x| && done + b < size && Whole(x[done..], b) && buf[..done] == x[..done]
    ensures done + b <= |x| && Whole(x[done + b..], b) && |next| == size && next[..done + b] == x[..done + b]
    ensures ReceiveBlocks(d, b, buf, done, [], Enciphered(e, b, x[done..]) + rest, size) ==
            ReceivePlain(d, b, next, done, Enciphered(e, b, x[done + b..]) + rest, size)
  {
    hide ReceiveBlocks, ReceivePlain;
    var z := x[done..];
    assert z[b..] == x[done + b..];
    var s := Enciphered(e, b, z[b..]) + rest;
    assert Enciphered(e, b, z) + rest == e(z[..b]) + s;
    BlockArrives(d, b, buf, done, [], e(z[..b]), s, size);
    assert [] + e(z[..b]) == e(z[..b]);
    next := Splice(buf, done, z[..b]);
    assert x[..done + b] == x[..done] + z[..b];
  }

  lemma NoTerminatorYet(d: Block -> Block, b: nat, buf: seq<byte>, x: seq<byte>, done: nat, line: seq<byte>, s: seq<byte>, size: nat)
    requires ValidSize(size) && |buf| == size && b > 0 && BlockFunction(d, b)
    requires Holding(x, line, b) && done + b <= |line| && done + b < size && buf[..done + b] == x[..done + b]
    ensures ReceivePlain(d, b, buf, done, s, size) == ReceiveBlocks(d, b, buf, done + b, [], s, size)
  {
    hide ReceiveBlocks;
    assert x[..done + b] == x[..|line|][..done + b] == line[..done + b];
    assert buf[done..done + b] == buf[..done + b][done..] == line[..done + b][done..] == line[done..done + b];
  }

  lemma TerminatorInBlock(buf: seq<byte>, x: seq<byte>, done: nat, b: nat, line: seq<byte>)
    requires Holding(x, line, b) && done <= |line| < done + b <= |x| && done + b <= |buf| && buf[..done + b] == x[..done + b]
    ensures buf[..|line|] == line && FirstTerminator(buf[done..done + b]) == Some(|line| - done)
  {
    var plain := buf[done..done + b];
    var k := |line| - done;
    assert plain == buf[..done + b][done..];
    assert buf[..|line|] == buf[..done + b][..|line|] == x[..done + b][..|line|] == line;
    assert plain[..k] == buf[..|line|][done..] == line[done..];
    assert plain[k] == buf[..done + b][|line|] == x[|line|];
    assert plain == line[done..] + [TERMINATOR] + plain[k + 1..];
    LineEndIs(line[done..], plain[k + 1..]);
  }

  lemma LineComplete(d: Block -> Block, b: nat, buf: seq<byte>, x: seq<byte>, done: nat, line: seq<byte>, rest: seq<byte>, size: nat)
    returns (buf': seq<byte>)
    requires ValidSize(size) && |buf| == size && b > 0 && BlockFunction(d, b)
    requires Holding(x, line, b) && done <= |line| < done + b <= |x| < size && buf[..done + b] == x[..done + b]
    requires SelfContained(UpToNul(line))
    ensures |buf'| == size
    ensures ReceivePlain(d, b, buf, done, rest, size) ==
            if Meaning(UpToNul(line), size).Some? then Got(Meaning(UpToNul(line), size).value, rest)
            else ReceiveBlocks(d, b, buf', 0, [], rest, size)
  {
    hide ReceiveBlocks, Meaning, SelfContained, UpToNul, Decode;
    TerminatorInBlock(buf, x, done, b, line);
    buf' := buf[|line| := NUL];
    var v := UpToNul(line);
    VisibleStands(buf, |line|, line, v);
    DecodeIsMeaning(buf', |v|, size);
  }

  /** A padded line of less than a buffer arrives: it is understood as it would be on a plain
      line, its padding is gone, and the next byte starts a block. */
  lemma EncryptedLineReceived(e: Block -> Block, d: Block -> Block, b: nat, buf: seq<byte>, line: seq<byte>, pad: seq<byte>,
                              rest: seq<byte>, size: nat) returns (buf': seq<byte>)
    requires ValidSize(size) && |buf| == size && b > 0 && Inverts(d, e, b)
    requires TERMINATOR !in line && Padding(line + [TERMINATOR], pad, b) && |line| + 1 + |pad| < size
    requires SelfContained(UpToNul(line))
    ensures |buf'| == size
    ensures ReceiveBlocks(d, b, buf, 0, [], Enciphered(e, b, line + [TERMINATOR] + pad) + rest, size) ==
            if Meaning(UpToNul(line), size).Some? then Got(Meaning(UpToNul(line), size).value, rest)
            else ReceiveBlocks(d, b, buf', 0, [], rest, size)
  {
    hide ReceiveBlocks, Meaning, SelfContained, UpToNul;
    var x := line + [TERMINATOR] + pad;
    assert x[0..] == x && x[..|line|] == line;
    buf' := BlocksArrive(e, d, b, buf, x, 0, line, rest, size);
  }

  // ------------------------------------------------------------ frames that fit only before padding

  lemma {:induction false} PartArrives(d: Block -> Block, b: nat, buf: seq<byte>, part: Block, c: Block, s: seq<byte>, size: nat)
    requires ValidSize(size) && |buf| == size && BlockFunction(d, b) && |part| + |c| < b < size
    ensures ReceiveBlocks(d, b, buf, 0, part, c + s, size) == ReceiveBlocks(d, b, buf, 0, part + c, s, size)
    decreases |c|
  {
    hide ReceivePlain;
    if c == [] {
      assert c + s == s && part + c == part;
    } else {
      assert (c + s)[1..] == c[1..] + s && (c + s)[0] == c[0];
      assert part + [c[0]] + c[1..] == part + c;
      PartArrives(d, b, buf, part + [c[0]], c[1..], s, size);
    }
  }

  /** A block that does not fit is dropped at the byte that fills the buffer; the rest of it is
      taken for the start of the next block. */
  lemma {:induction false} BlockOverflows(d: Block -> Block, b: nat, buf: seq<byte>, pos: nat, part: Block, c: Block, s: seq<byte>, size: nat)
    requires ValidSize(size) && |buf| == size && BlockFunction(d, b) && b < size
    requires |part| + |c| == b && pos + |part| < size <= pos + b
    ensures ReceiveBlocks(d, b, buf, pos, part, c + s, size) ==
            ReceiveBlocks(d, b, buf, 0, c[size - pos - |part|..], s, size)
    decreases |c|
  {
    hide ReceivePlain;
    assert (c + s)[1..] == c[1..] + s && (c + s)[0] == c[0];
    if pos + |part| + 1 >= size {
      PartArrives(d, b, buf, [], c[1..], s, size);
      assert [] + c[1..] == c[1..];
    } else {
      BlockOverflows(d, b, buf, pos, part + [c[0]], c[1..], s, size);
      assert c[1..][size - pos - |part| - 1..] == c[size - pos - |part|..];
    }
  }

  /** A padded message of a buffer or more: nothing is heard, and the receiver is left with the
      bytes of its last block that the buffer had no room for. */
  lemma {:induction false} PaddedTooLong(e: Block -> Block, d: Block -> Block, b: nat, buf: seq<byte>, x: seq<byte>, done: nat,
                                         line: seq<byte>, rest: seq<byte>, size: nat) returns (buf': seq<byte>, part: Block)
    requires ValidSize(size) && |buf| == size && 0 < b < size && Inverts(d, e, b)
    requires Holding(x, line, b) && |line| + 1 < size <= |x| && done <= |line| && Whole(x[done..], b)
    requires buf[..done] == x[..done]
    ensures |buf'| == size && |part| == |x| - size < b
    ensures ReceiveBlocks(d, b, buf, done, [], Enciphered(e, b, x[done..]) + rest, size) ==
            ReceiveBlocks(d, b, buf', 0, part, rest, size)
    decreases |x| - done
  {
    hide ReceiveBlocks, ReceivePlain;
    if done + b < size {
      hide Enciphered, Whole;
      var next := FirstBlockArrives(e, d, b, buf, x, done, rest, size);
      NoTerminatorYet(d, b, next, x, done, line, Enciphered(e, b, x[done + b..]) + rest, size);
      buf', part := PaddedTooLong(e, d, b, next, x, done + b, line, rest, size);
    } else {
      var z := x[done..];
      assert z[b..] == [];
      assert Enciphered(e, b, z) == e(z[..b]) + [];
      assert e(z[..b]) + [] == e(z[..b]);
      BlockOverflows(d, b, buf, done, [], e(z[..b]), rest, size);
      buf', part := buf, e(z[..b])[size - done..];
    }
  }

  // ------------------------------------------------------------ whole conversations

  /** A message with the padding that was drawn for it. */
  datatype Padded = Padded(msg: Msg, pad: seq<byte>)

  ghost predicate Fits(p: Padded, b: nat, size: nat)
    requires ValidSize(size) && b > 0
  {
    && Sendable(p.msg, size) && Padding(Frame(p.msg), p.pad, b) && |Frame(p.msg)| + |p.pad| < size
  }

  ghost function SentBlocks(e: Block -> Block, b: nat, ps: seq<Padded>, size: nat): seq<byte>
    requires ValidSize(size) && b > 0 && forall i | 0 <= i < |ps| :: Fits(ps[i], b, size)
  {
    if ps == [] then []
    else
      assert Fits(ps[0], b, size);
      Enciphered(e, b, Frame(ps[0].msg) + ps[0].pad) + SentBlocks(e, b, ps[1..], size)
  }

  function Messages(ps: seq<Padded>): (ms: seq<Msg>)
    ensures |ms| == |ps|
  {
    seq(|ps|, i requires 0 <= i < |ps| => ps[i].msg)
  }

  /** The messages that repeated calls get and what they leave, whatever the message buffer held
      before each. */
  ghost function CollectedBlocks(d: Block -> Block, b: nat, bufs: seq<seq<byte>>, s: seq<byte>, size: nat): (seq<Msg>, seq<byte>)
    requires ValidSize(size) && BlockFunction(d, b) && b > 0 && forall i | 0 <= i < |bufs| :: |bufs[i]| == size
  {
    if bufs == [] then ([], s)
    else
      match ReceiveBlocks(d, b, bufs[0], 0, [], s, size)
      case Got(m, rest) =>
        var c := CollectedBlocks(d, b, bufs[1..], rest, size);
        ([m] + c.0, c.1)
      case Starved => ([], [])
  }

  lemma PaddedArrives(e: Block -> Block, d: Block -> Block, b: nat, p: Padded, buf: seq<byte>, rest: seq<byte>, size: nat)
    requires ValidSize(size) && |buf| == size && b > 0 && Inverts(d, e, b) && Fits(p, b, size)
    ensures ReceiveBlocks(d, b, buf, 0, [], Enciphered(e, b, Frame(p.msg) + p.pad) + rest, size) == Got(p.msg, rest)
  {
    hide ReceiveBlocks, Meaning, SelfContained, Visible;
    var m := p.msg;
    EncodeOkIff(m, size);
    FrameUnderstoodIff(m, size);
    LineBytes(m);
    var line := Line(m.channel, m.payload);
    UpToNulWhole(line);
    assert Visible(line, size) == line;
    var buf' := EncryptedLineReceived(e, d, b, buf, line, p.pad, rest, size);
  }

  /** A message alone on the link is received exactly when it is shorter than the buffer with its
      padding, which the sender does not look at. */
  lemma PaddedArrivesIff(e: Block -> Block, d: Block -> Block, b: nat, p: Padded, buf: seq<byte>, size: nat)
    requires ValidSize(size) && |buf| == size && 0 < b < size && Inverts(d, e, b)
    requires Sendable(p.msg, size) && Padding(Frame(p.msg), p.pad, b)
    ensures ReceiveBlocks(d, b, buf, 0, [], Enciphered(e, b, Frame(p.msg) + p.pad), size) == Got(p.msg, []) <==>
            |Frame(p.msg)| + |p.pad| < size
  {
    hide ReceiveBlocks;
    var x := Frame(p.msg) + p.pad;
    var sent := Enciphered(e, b, x);
    assert sent + [] == sent;
    if |x| < size {
      PaddedArrives(e, d, b, p, buf, [], size);
    } else {
      var line := Line(p.msg.channel, p.msg.payload);
      LineBytes(p.msg);
      assert x[0..] == x && x[..|line|] == line;
      var buf', part := PaddedTooLong(e, d, b, buf, x, 0, line, [], size);
      StarvedByNothing(d, b, buf', part, size);
    }
  }

  lemma StarvedByNothing(d: Block -> Block, b: nat, buf: seq<byte>, part: Block, size: nat)
    requires ValidSize(size) && |buf| == size && |part| < b && |part| < size && BlockFunction(d, b)
    ensures ReceiveBlocks(d, b, buf, 0, part, [], size) == Starved
  {}

  /** For every invertible block cipher and every padding: messages sent over the encrypted link
      come out in order and unchanged, and what follows them is still aligned. */
  lemma {:induction false} EncryptedSentIsReceived(e: Block -> Block, d: Block -> Block, b: nat, ps: seq<Padded>,
                                                   bufs: seq<seq<byte>>, rest: seq<byte>, size: nat)
    requires ValidSize(size) && b > 0 && Inverts(d, e, b)
    requires forall i | 0 <= i < |ps| :: Fits(ps[i], b, size)
    requires |bufs| == |ps| && forall i | 0 <= i < |bufs| :: |bufs[i]| == size
    ensures CollectedBlocks(d, b, bufs, SentBlocks(e, b, ps, size) + rest, size) == (Messages(ps), rest)
    decreases |ps|
  {
    hide ReceiveBlocks, Enciphered, Whole, Sendable, Frame;
    if ps == [] {
      assert [] + rest == rest;
    } else {
      var later := SentBlocks(e, b, ps[1..], size) + rest;
      var first := Enciphered(e, b, Frame(ps[0].msg) + ps[0].pad);
      assert SentBlocks(e, b, ps, size) + rest == first + later;
      PaddedArrives(e, d, b, ps[0], bufs[0], later, size);
      EncryptedSentIsReceived(e, d, b, ps[1..], bufs[1..], rest, size);
      assert Messages(ps) == [ps[0].msg] + Messages(ps[1..]);
    }
  }
}
