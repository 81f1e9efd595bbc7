/** Splitting and joining of message parts (opdi_strings.c): the tokenizer as a function, the
    in-place split, the bounded join, and what one does to the other. */
module Strings {
  import opened Constants

  /** The null pointer among positions in a buffer. */
  const NULL := -1

  predicate IsSpace(b: byte) { b == BLANK || 9 <= b <= 13 }

  // ------------------------------------------------------------ the tokenizer

  /** The parts of s: a doubled separator stands for one separator inside a part, read
      greedily from the left; a single one ends the part. cur is what is already read of
      the current part. */
  function Parts(s: seq<byte>, sep: byte, cur: seq<byte>): (ps: seq<seq<byte>>)
    ensures |ps| > 0
  {
    if s == [] then [cur]
    else if s[0] != sep then Parts(s[1..], sep, cur + [s[0]])
    else if |s| > 1 && s[1] == sep then Parts(s[2..], sep, cur + [sep])
    else [cur] + Parts(s[1..], sep, [])
  }

  function LeftTrim(p: seq<byte>): seq<byte> {
    if p != [] && IsSpace(p[0]) then LeftTrim(p[1..]) else p
  }

  /** Without trailing whitespace; of a part that is all whitespace the first byte stays. */
  function RightTrim(p: seq<byte>): seq<byte> {
    if |p| > 1 && IsSpace(p[|p| - 1]) then RightTrim(p[..|p| - 1]) else p
  }

  function LeftTrimAll(ps: seq<seq<byte>>): (qs: seq<seq<byte>>)
    ensures |qs| == |ps|
  {
    seq(|ps|, i requires 0 <= i < |ps| => LeftTrim(ps[i]))
  }

  /** All parts but the last lose their trailing whitespace. */
  function RightTrimAll(ps: seq<seq<byte>>): (qs: seq<seq<byte>>)
    ensures |qs| == |ps|
  {
    seq(|ps|, i requires 0 <= i < |ps| => if i < |ps| - 1 then RightTrim(ps[i]) else ps[i])
  }

  function Tokens(s: seq<byte>, sep: byte, trim: bool): (ps: seq<seq<byte>>)
    ensures |ps| > 0
  {
    if trim then RightTrimAll(LeftTrimAll(Parts(s, sep, []))) else Parts(s, sep, [])
  }

  /** A single separator at the very start. */
  predicate LoneStart(s: seq<byte>, sep: byte) {
    s != [] && s[0] == sep && (|s| == 1 || s[1] != sep)
  }

  // ------------------------------------------------------------ one pass, trimming on the left

  /** The tokenizer as the loop runs it: whitespace is dropped while the current part is empty. */
  function Scan(s: seq<byte>, sep: byte, trim: bool, cur: seq<byte>): (ps: seq<seq<byte>>)
    ensures |ps| > 0
  {
    if s == [] then [cur]
    else if s[0] != sep then
      Scan(s[1..], sep, trim, if cur == [] && trim && IsSpace(s[0]) then cur else cur + [s[0]])
    else if |s| > 1 && s[1] == sep then Scan(s[2..], sep, trim, cur + [sep])
    else [cur] + Scan(s[1..], sep, trim, [])
  }

  lemma LeftTrimSnoc(p: seq<byte>, b: byte)
    ensures LeftTrim(p + [b]) == if LeftTrim(p) == [] && IsSpace(b) then [] else LeftTrim(p) + [b]
  {
    if p != [] && IsSpace(p[0]) {
      assert (p + [b])[1..] == p[1..] + [b];
      LeftTrimSnoc(p[1..], b);
    }
  }

  lemma {:induction false} ScanIsTrimmedParts(s: seq<byte>, sep: byte, trim: bool, cur: seq<byte>)
    requires trim ==> !IsSpace(sep)
    ensures Scan(s, sep, trim, if trim then LeftTrim(cur) else cur) ==
            if trim then LeftTrimAll(Parts(s, sep, cur)) else Parts(s, sep, cur)
    decreases |s|
  {
    if s == [] {
    } else if s[0] != sep {
      LeftTrimSnoc(cur, s[0]);
      ScanIsTrimmedParts(s[1..], sep, trim, cur + [s[0]]);
    } else if |s| > 1 && s[1] == sep {
      LeftTrimSnoc(cur, sep);
      ScanIsTrimmedParts(s[2..], sep, trim, cur + [sep]);
    } else {
      ScanIsTrimmedParts(s[1..], sep, trim, []);
      var rest := Parts(s[1..], sep, []);
      assert LeftTrimAll([cur] + rest) == [LeftTrim(cur)] + LeftTrimAll(rest);
    }
  }

  /** The parts as the source finds them: one scan, then a trim of all parts but the last. */
  function LoopTokens(s: seq<byte>, sep: byte, trim: bool): (ps: seq<seq<byte>>)
    ensures |ps| == |Scan(s, sep, trim, [])|
  {
    var ps := Scan(s, sep, trim, []);
    if trim then RightTrimAll(ps) else ps
  }

  lemma LoopTokensAreTokens(s: seq<byte>, sep: byte, trim: bool)
    requires trim ==> !IsSpace(sep)
    ensures LoopTokens(s, sep, trim) == Tokens(s, sep, trim)
  {
    ScanIsTrimmedParts(s, sep, trim, []);
  }

  lemma LoneStartHasTwoParts(s: seq<byte>, sep: byte, trim: bool)
    requires LoneStart(s, sep)
    ensures |Scan(s, sep, trim, [])| >= 2 && Scan(s, sep, trim, [])[0] == []
  {}

  /** What the in-place split leaves in its parts. The right-trim of an empty first part writes
      a terminator over the first byte of the second part. */
  function SplitResult(s: seq<byte>, sep: byte, trim: bool): (ps: seq<seq<byte>>)
    ensures |ps| == |LoopTokens(s, sep, trim)| > 0
  {
    var ps := LoopTokens(s, sep, trim);
    if trim && LoneStart(s, sep) then LoneStartHasTwoParts(s, sep, trim); ps[1 := []] else ps
  }

  /** What is already read of a part stays at its front. */
  lemma {:induction false} ScanKeepsCurrent(s: seq<byte>, sep: byte, trim: bool, cur: seq<byte>)
    ensures cur <= Scan(s, sep, trim, cur)[0]
    decreases |s|
  {
    if s == [] {
    } else if s[0] != sep {
      ScanKeepsCurrent(s[1..], sep, trim, if cur == [] && trim && IsSpace(s[0]) then cur else cur + [s[0]]);
    } else if |s| > 1 && s[1] == sep {
      ScanKeepsCurrent(s[2..], sep, trim, cur + [sep]);
    }
  }

  /** A trimming scan begins with an empty part exactly when, behind its leading whitespace, the
      text is at its end or at a lone separator. */
  lemma {:induction false} FirstPartEmptyIff(s: seq<byte>, sep: byte)
    requires !IsSpace(sep)
    ensures Scan(s, sep, true, [])[0] == [] <==> LeftTrim(s) == [] || LoneStart(LeftTrim(s), sep)
    decreases |s|
  {
    if s == [] {
    } else if s[0] == sep {
      if |s| > 1 && s[1] == sep {
        ScanKeepsCurrent(s[2..], sep, true, [] + [sep]);
      }
    } else if IsSpace(s[0]) {
      FirstPartEmptyIff(s[1..], sep);
    } else {
      ScanKeepsCurrent(s[1..], sep, true, [] + [s[0]]);
    }
  }

  /** The text starts with a lone separator, and what follows it, whitespace apart, is neither the
      end nor another lone separator. */
  predicate LosesSecondPart(s: seq<byte>, sep: byte, trim: bool) {
    && trim && LoneStart(s, sep)
    && var rest := LeftTrim(s[1..]); rest != [] && !LoneStart(rest, sep)
  }

  /** The in-place split is the tokenizer exactly for the texts that lose no second part. */
  lemma SplitIsTokenizerIff(s: seq<byte>, sep: byte, trim: bool)
    requires trim ==> !IsSpace(sep)
    ensures SplitResult(s, sep, trim) == Tokens(s, sep, trim) <==> !LosesSecondPart(s, sep, trim)
  {
    LoopTokensAreTokens(s, sep, trim);
    if trim && LoneStart(s, sep) {
      LoneStartHasTwoParts(s, sep, trim);
      FirstPartEmptyIff(s[1..], sep);
      var ps, scanned := Tokens(s, sep, trim), Scan(s, sep, trim, []);
      assert scanned[1] == Scan(s[1..], sep, true, [])[0];
      RightTrimPrefix(scanned[1]);
      assert ps[1] == [] <==> scanned[1] == [];
      assert ps[1 := []][1] == [];
      if ps[1] == [] {
        assert ps[1 := []] == ps;
      }
    }
  }

  /** A separator and one letter: the letter is lost. */
  lemma LetterBehindSeparatorLost()
    ensures Tokens([SEPARATOR, 120], SEPARATOR, true) == [[], [120]]
    ensures SplitResult([SEPARATOR, 120], SEPARATOR, true) == [[], []]
  {
    var s: seq<byte> := [SEPARATOR, 120];
    LoopTokensAreTokens(s, SEPARATOR, true);
    assert s[1..] == [120] && [120][1..] == [] && [] + [120] == [120];
    assert Scan([120], SEPARATOR, true, []) == Scan([], SEPARATOR, true, [120]) == [[120]];
    assert Scan(s, SEPARATOR, true, []) == [[]] + [[120]] == [[], [120]];
    assert RightTrimAll([[], [120]]) == [[], [120]];
    assert [[], [120]][1 := []] == [[], []];
  }

  // ------------------------------------------------------------ joining

  /** Every separator inside a part is doubled. */
  function Escaped(p: seq<byte>, sep: byte): (e: seq<byte>)
    ensures p != [] ==> e != [] && e[0] == p[0] && (p[0] == sep ==> |e| > 1 && e[1] == sep)
  {
    if p == [] then [] else (if p[0] == sep then [sep, sep] else [p[0]]) + Escaped(p[1..], sep)
  }

  /** Escaped parts with a separator between any two. */
  function JoinRaw(rs: seq<seq<byte>>, sep: byte): seq<byte> {
    if rs == [] then []
    else if |rs| == 1 then Escaped(rs[0], sep)
    else Escaped(rs[0], sep) + [sep] + JoinRaw(rs[1..], sep)
  }

  /** An empty part is sent as one blank. */
  function Blanked(ps: seq<seq<byte>>): (rs: seq<seq<byte>>)
    ensures |rs| == |ps|
  {
    seq(|ps|, i requires 0 <= i < |ps| => if ps[i] == [] then [BLANK] else ps[i])
  }

  function Join(ps: seq<seq<byte>>, sep: byte): seq<byte> { JoinRaw(Blanked(ps), sep) }

  /** No part after the first is empty or starts with the separator. */
  ghost predicate Separable(rs: seq<seq<byte>>, sep: byte) {
    forall i | 0 < i < |rs| :: rs[i] != [] && rs[i][0] != sep
  }

  /** One byte of a part, escaped if need be, at the front of a string. */
  lemma PartsOfByte(b: byte, sep: byte, rest: seq<byte>, cur: seq<byte>)
    ensures Parts((if b == sep then [sep, sep] else [b]) + rest, sep, cur) == Parts(rest, sep, cur + [b])
  {
    if b == sep {
      assert ([sep, sep] + rest)[2..] == rest;
    } else {
      assert ([b] + rest)[1..] == rest;
    }
  }

  lemma {:induction false} PartsOfEscaped(p: seq<byte>, sep: byte, rest: seq<byte>, cur: seq<byte>)
    ensures Parts(Escaped(p, sep) + rest, sep, cur) == Parts(rest, sep, cur + p)
    decreases |p|
  {
    hide Parts;
    if p == [] {
      assert Escaped(p, sep) + rest == rest && cur + p == cur;
    } else {
      var e := Escaped(p[1..], sep) + rest;
      assert cur + p == cur + [p[0]] + p[1..];
      PartsOfEscaped(p[1..], sep, rest, cur + [p[0]]);
      PartsOfByte(p[0], sep, e, cur);
      assert Escaped(p, sep) + rest == (if p[0] == sep then [sep, sep] else [p[0]]) + e;
    }
  }

  /** The tokenizer takes a join apart again if no later part starts with the separator. */
  lemma {:induction false} PartsOfJoin(rs: seq<seq<byte>>, sep: byte)
    requires rs != [] && Separable(rs, sep)
    ensures Parts(JoinRaw(rs, sep), sep, []) == rs
    decreases |rs|
  {
    var first := rs[0];
    if |rs| == 1 {
      PartsOfEscaped(first, sep, [], []);
      assert Escaped(first, sep) + [] == Escaped(first, sep) && [] + first == first;
    } else {
      var rest := JoinRaw(rs[1..], sep);
      PartsOfEscaped(first, sep, [sep] + rest, []);
      assert Escaped(first, sep) + [sep] + rest == Escaped(first, sep) + ([sep] + rest);
      assert [] + first == first && ([sep] + rest)[1..] == rest;
      JoinStarts(rs[1..], sep);
      PartsOfJoin(rs[1..], sep);
    }
  }

  lemma JoinStarts(rs: seq<seq<byte>>, sep: byte)
    requires rs != [] && rs[0] != []
    ensures JoinRaw(rs, sep) != [] && JoinRaw(rs, sep)[0] == rs[0][0]
    ensures rs[0][0] == sep ==> |JoinRaw(rs, sep)| > 1 && JoinRaw(rs, sep)[1] == sep
  {}

  /** What is already read of a part stays at its front. */
  lemma {:induction false} PartsKeepCurrent(s: seq<byte>, sep: byte, cur: seq<byte>)
    ensures var p := Parts(s, sep, cur)[0]; |cur| <= |p| && p[..|cur|] == cur
    decreases |s|
  {
    if s == [] {
    } else if s[0] != sep {
      PartsKeepCurrent(s[1..], sep, cur + [s[0]]);
      assert (cur + [s[0]])[..|cur|] == cur;
    } else if |s| > 1 && s[1] == sep {
      PartsKeepCurrent(s[2..], sep, cur + [sep]);
      assert (cur + [sep])[..|cur|] == cur;
    }
  }

  /** If a later part starts with the separator, the part before it comes back longer. */
  lemma {:induction false} PartsOfInseparable(rs: seq<seq<byte>>, sep: byte) returns (i: nat)
    requires (forall k | 0 < k < |rs| :: rs[k] != []) && !Separable(rs, sep)
    ensures var ps := Parts(JoinRaw(rs, sep), sep, []);
            i + 1 < |rs| && i < |ps| && |rs[i]| < |ps[i]| && ps[i][..|rs[i]| + 1] == rs[i] + [sep]
    decreases |rs|
  {
    var first := rs[0];
    var rest := JoinRaw(rs[1..], sep);
    PartsOfEscaped(first, sep, [sep] + rest, []);
    assert Escaped(first, sep) + [sep] + rest == Escaped(first, sep) + ([sep] + rest);
    assert [] + first == first;
    JoinStarts(rs[1..], sep);
    if rs[1][0] == sep {
      assert ([sep] + rest)[1] == sep;
      PartsKeepCurrent(([sep] + rest)[2..], sep, first + [sep]);
      i := 0;
    } else {
      assert ([sep] + rest)[1..] == rest;
      var k :| 0 < k < |rs| && !(rs[k] != [] && rs[k][0] != sep);
      assert rs[1..][k - 1] == rs[k];
      var j := PartsOfInseparable(rs[1..], sep);
      i := j + 1;
    }
  }

  /** Without trimming, a join splits into the parts it was made from, with blanks for empty
      ones, exactly when no part after the first starts with the separator. */
  lemma SplitOfJoinIff(ps: seq<seq<byte>>, sep: byte)
    requires ps != [] && sep != BLANK
    ensures Tokens(Join(ps, sep), sep, false) == Blanked(ps) <==> Separable(Blanked(ps), sep)
  {
    if Separable(Blanked(ps), sep) {
      PartsOfJoin(Blanked(ps), sep);
    } else {
      var i := PartsOfInseparable(Blanked(ps), sep);
    }
  }

  lemma LeftTrimFixed(p: seq<byte>)
    ensures |LeftTrim(p)| <= |p|
    ensures LeftTrim(p) != [] ==> !IsSpace(LeftTrim(p)[0])
    ensures p != [] ==> (LeftTrim(p) == p <==> !IsSpace(p[0]))
  {}

  lemma RightTrimPrefix(p: seq<byte>)
    ensures |RightTrim(p)| <= |p| && RightTrim(p) == p[..|RightTrim(p)|] && (p != [] ==> RightTrim(p) != [])
    ensures RightTrim(p) == p <==> |p| <= 1 || !IsSpace(p[|p| - 1])
  {}

  lemma {:induction false} RightTrimKeeps(p: seq<byte>, k: nat)
    requires k < |p| && !IsSpace(p[k])
    ensures |RightTrim(p)| > k
    decreases |p|
  {
    if |p| > 1 && IsSpace(p[|p| - 1]) {
      RightTrimKeeps(p[..|p| - 1], k);
    }
  }

  /** One part of a trimming split: the last one keeps its end. */
  function TrimPart(p: seq<byte>, last: bool): seq<byte> {
    if last then LeftTrim(p) else RightTrim(LeftTrim(p))
  }

  predicate NothingToTrim(p: seq<byte>, last: bool) {
    p == [] || !(IsSpace(p[0]) || (!last && IsSpace(p[|p| - 1])))
  }

  /** A part as it goes over the wire: blanks may come in front, and something always goes. */
  ghost predicate RawOf(p: seq<byte>, r: seq<byte>) {
    && r != [] && |p| <= |r| && r[|r| - |p|..] == p
    && forall k | 0 <= k < |r| - |p| :: r[k] == BLANK
  }

  lemma {:induction false} LeftTrimSkips(p: seq<byte>, k: nat)
    requires k <= |p| && forall j | 0 <= j < k :: IsSpace(p[j])
    ensures LeftTrim(p) == LeftTrim(p[k..])
    decreases k
  {
    if k > 0 {
      LeftTrimSkips(p[1..], k - 1);
      assert p[1..][k - 1..] == p[k..];
    } else {
      assert p[0..] == p;
    }
  }

  lemma TrimPartOfRaw(p: seq<byte>, r: seq<byte>, last: bool)
    requires RawOf(p, r)
    ensures TrimPart(r, last) == p <==> NothingToTrim(p, last)
  {
    LeftTrimSkips(r, |r| - |p|);
    LeftTrimFixed(p);
    RightTrimPrefix(LeftTrim(p));
  }

  /** A part that ran on past a separator does not trim back to what it was. */
  lemma TrimPartLonger(p: seq<byte>, r: seq<byte>, raw: seq<byte>, sep: byte)
    requires !IsSpace(sep) && RawOf(p, r)
    requires |r| < |raw| && raw[..|r| + 1] == r + [sep]
    ensures TrimPart(raw, false) != p
  {
    var k := |r| - |p|;
    assert forall j | 0 <= j <= |r| :: raw[j] == raw[..|r| + 1][j];
    LeftTrimSkips(raw, k);
    var t := raw[k..];
    assert t[|p|] == raw[|r|] == sep;
    assert forall j | 0 <= j < |p| :: t[j] == r[k..][j];
    LeftTrimFixed(t);
    RightTrimPrefix(LeftTrim(t));
    if p == [] || !IsSpace(p[0]) {
      assert LeftTrim(t) == t;
      RightTrimKeeps(t, |p|);
    }
  }

  lemma TokensByPart(s: seq<byte>, sep: byte, i: nat)
    requires i < |Parts(s, sep, [])|
    ensures var raw := Parts(s, sep, []);
            |Tokens(s, sep, true)| == |raw| && Tokens(s, sep, true)[i] == TrimPart(raw[i], i == |raw| - 1)
  {}

  /** Free of the whitespace a trimming split removes. */
  ghost predicate AllTrimmed(ps: seq<seq<byte>>) {
    forall i | 0 <= i < |ps| :: NothingToTrim(ps[i], i == |ps| - 1)
  }

  /** With trimming, raw parts joined split into the very parts they stand for exactly when none
      has whitespace to lose and no later one starts with the separator. */
  lemma TrimmingSplitOfRawsIff(ps: seq<seq<byte>>, rs: seq<seq<byte>>, sep: byte)
    requires ps != [] && !IsSpace(sep) && |rs| == |ps| && forall i | 0 <= i < |ps| :: RawOf(ps[i], rs[i])
    ensures Tokens(JoinRaw(rs, sep), sep, true) == ps <==> Separable(rs, sep) && AllTrimmed(ps)
  {
    hide RawOf, Tokens;
    var t := Tokens(JoinRaw(rs, sep), sep, true);
    if Separable(rs, sep) {
      TokensOfSeparable(ps, rs, sep);
      if t == ps {
        forall i | 0 <= i < |ps|
          ensures NothingToTrim(ps[i], i == |ps| - 1)
        {
          assert t[i] == ps[i];
        }
      }
    } else if t == ps {
      RawsAreNotEmpty(ps, rs);
      var i := PartsOfInseparable(rs, sep);
      TokensByPart(JoinRaw(rs, sep), sep, i);
      TrimPartLonger(ps[i], rs[i], Parts(JoinRaw(rs, sep), sep, [])[i], sep);
      assert false;
    }
  }

  lemma RawsAreNotEmpty(ps: seq<seq<byte>>, rs: seq<seq<byte>>)
    requires |rs| == |ps| && forall i | 0 <= i < |ps| :: RawOf(ps[i], rs[i])
    ensures forall i | 0 <= i < |rs| :: rs[i] != []
  {}

  lemma TokensOfSeparable(ps: seq<seq<byte>>, rs: seq<seq<byte>>, sep: byte)
    requires ps != [] && !IsSpace(sep) && |rs| == |ps| && forall i | 0 <= i < |ps| :: RawOf(ps[i], rs[i])
    requires Separable(rs, sep)
    ensures var t := Tokens(JoinRaw(rs, sep), sep, true);
            |t| == |ps| && forall i | 0 <= i < |ps| :: t[i] == ps[i] <==> NothingToTrim(ps[i], i == |ps| - 1)
  {
    hide Parts, Tokens, TrimPart, JoinRaw, RawOf;
    PartsOfJoin(rs, sep);
    TokensByPart(JoinRaw(rs, sep), sep, 0);
    forall i | 0 <= i < |ps|
      ensures Tokens(JoinRaw(rs, sep), sep, true)[i] == ps[i] <==> NothingToTrim(ps[i], i == |ps| - 1)
    {
      TokensByPart(JoinRaw(rs, sep), sep, i);
      TrimPartOfRaw(ps[i], rs[i], i == |ps| - 1);
    }
  }

  /** So the slave's join splits into the very parts it was made from, empty ones included. */
  lemma TrimmingSplitOfJoinIff(ps: seq<seq<byte>>, sep: byte)
    requires ps != [] && !IsSpace(sep)
    ensures Tokens(Join(ps, sep), sep, true) == ps <==> Separable(Blanked(ps), sep) && AllTrimmed(ps)
  {
    TrimmingSplitOfRawsIff(ps, Blanked(ps), sep);
  }

  /** A join never starts with a lone separator, so the in-place split of one is the tokenizer. */
  lemma SplitResultOfRaws(rs: seq<seq<byte>>, sep: byte, trim: bool)
    requires rs != [] && rs[0] != [] && (trim ==> !IsSpace(sep))
    ensures SplitResult(JoinRaw(rs, sep), sep, trim) == Tokens(JoinRaw(rs, sep), sep, trim)
  {
    JoinStarts(rs, sep);
    LoopTokensAreTokens(JoinRaw(rs, sep), sep, trim);
  }

  lemma SplitResultOfJoin(ps: seq<seq<byte>>, sep: byte, trim: bool)
    requires ps != [] && sep != BLANK && (trim ==> !IsSpace(sep))
    ensures SplitResult(Join(ps, sep), sep, trim) == Tokens(Join(ps, sep), sep, trim)
  {
    SplitResultOfRaws(Blanked(ps), sep, trim);
  }

  // ------------------------------------------------------------ the join from left to right

  lemma {:induction false} EscapedSnoc(p: seq<byte>, b: byte, sep: byte)
    ensures Escaped(p + [b], sep) == Escaped(p, sep) + if b == sep then [sep, sep] else [b]
    decreases |p|
  {
    if p != [] {
      assert (p + [b])[1..] == p[1..] + [b];
      EscapedSnoc(p[1..], b, sep);
    }
  }

  lemma {:induction false} JoinSnoc(rs: seq<seq<byte>>, r: seq<byte>, sep: byte)
    requires rs != []
    ensures JoinRaw(rs + [r], sep) == JoinRaw(rs, sep) + [sep] + Escaped(r, sep)
    decreases |rs|
  {
    hide Escaped;
    var e := Escaped(rs[0], sep);
    assert (rs + [r])[1..] == rs[1..] + [r];
    if |rs| > 1 {
      JoinSnoc(rs[1..], r, sep);
      var rest := JoinRaw(rs[1..], sep);
      assert e + [sep] + (rest + [sep] + Escaped(r, sep)) == (e + [sep] + rest) + [sep] + Escaped(r, sep);
    } else {
      assert rs[1..] + [r] == [r];
    }
  }

  /** The bytes of a join before the first byte of raw part k. */
  function JoinedSoFar(rs: seq<seq<byte>>, sep: byte, k: nat): seq<byte>
    requires k <= |rs|
  {
    JoinRaw(rs[..k], sep) + if 0 < k < |rs| then [sep] else []
  }

  lemma JoinedNext(rs: seq<seq<byte>>, sep: byte, k: nat)
    requires k < |rs|
    ensures JoinedSoFar(rs, sep, k + 1) ==
            JoinedSoFar(rs, sep, k) + Escaped(rs[k], sep) + if k + 1 < |rs| then [sep] else []
  {
    hide Escaped;
    assert rs[..k + 1] == rs[..k] + [rs[k]];
    if k > 0 {
      JoinSnoc(rs[..k], rs[k], sep);
    } else {
      assert rs[..0] == [] && rs[..1] == [rs[0]];
    }
  }

  /** A join only grows. */
  lemma {:induction false} JoinedGrows(rs: seq<seq<byte>>, sep: byte, k: nat)
    requires k <= |rs|
    ensures |JoinedSoFar(rs, sep, k)| <= |JoinRaw(rs, sep)|
    decreases |rs| - k
  {
    hide JoinRaw;
    if k == |rs| {
      assert rs[..k] == rs;
    } else {
      JoinedNext(rs, sep, k);
      JoinedGrows(rs, sep, k + 1);
    }
  }

  lemma {:induction false} EscapedGrows(p: seq<byte>, sep: byte, j: nat)
    requires j <= |p|
    ensures |Escaped(p[..j], sep)| <= |Escaped(p, sep)|
    decreases |p| - j
  {
    if j < |p| {
      assert p[..j + 1] == p[..j] + [p[j]];
      EscapedSnoc(p[..j], p[j], sep);
      EscapedGrows(p, sep, j + 1);
    } else {
      assert p[..j] == p;
    }
  }

  /** A join holds no byte that none of its parts holds, but the separator. */
  lemma {:induction false} JoinHasNo(rs: seq<seq<byte>>, sep: byte, b: byte)
    requires sep != b && forall i | 0 <= i < |rs| :: b !in rs[i]
    ensures b !in JoinRaw(rs, sep)
    decreases |rs|
  {
    hide Escaped;
    if rs != [] {
      EscapedHasNo(rs[0], sep, b);
      JoinHasNo(rs[1..], sep, b);
    }
  }

  lemma {:induction false} EscapedHasNo(p: seq<byte>, sep: byte, b: byte)
    requires sep != b && b !in p
    ensures b !in Escaped(p, sep)
    decreases |p|
  {
    if p != [] {
      EscapedHasNo(p[1..], sep, b);
    }
  }

  lemma EscapedNothing(sep: byte)
    ensures Escaped([], sep) == []
  {}

  // ------------------------------------------------------------ how many parts there are

  /** A join never splits into more parts than it was made from, whatever they start with; nor does
      one with a separator in front into more than one part more. */
  lemma {:induction false} PartsOfJoinAtMost(rs: seq<seq<byte>>, sep: byte, cur: seq<byte>)
    requires rs != []
    ensures |Parts(JoinRaw(rs, sep), sep, cur)| <= |rs|
    decreases |rs|, 0
  {
    hide Escaped, Parts;
    if |rs| == 1 {
      PartsOfEscaped(rs[0], sep, [], cur);
      PartsOfNothing(sep, cur + rs[0]);
      assert Escaped(rs[0], sep) + [] == Escaped(rs[0], sep);
    } else {
      var rest := [sep] + JoinRaw(rs[1..], sep);
      assert Escaped(rs[0], sep) + [sep] + JoinRaw(rs[1..], sep) == Escaped(rs[0], sep) + rest;
      PartsOfEscaped(rs[0], sep, rest, cur);
      PartsOfLedJoinAtMost(rs[1..], sep, cur + rs[0]);
    }
  }

  lemma PartsOfNothing(sep: byte, cur: seq<byte>)
    ensures Parts([], sep, cur) == [cur]
  {}

  lemma PartsAtSeparator(t: seq<byte>, sep: byte, cur: seq<byte>)
    ensures Parts([sep] + t, sep, cur) ==
            if t != [] && t[0] == sep then Parts(t[1..], sep, cur + [sep]) else [cur] + Parts(t, sep, [])
  {
    assert ([sep] + t)[1..] == t;
    assert t != [] ==> ([sep] + t)[2..] == t[1..];
  }

  lemma {:induction false} PartsOfLedJoinAtMost(rs: seq<seq<byte>>, sep: byte, cur: seq<byte>)
    requires rs != []
    ensures |Parts([sep] + JoinRaw(rs, sep), sep, cur)| <= |rs| + 1
    decreases |rs|, 1 + |rs[0]|
  {
    hide Parts, JoinRaw;
    var text := JoinRaw(rs, sep);
    PartsAtSeparator(text, sep, cur);
    if rs[0] == [] {
      EmptyFirstJoined(rs, sep);
      if |rs| > 1 {
        PartsOfJoinAtMost(rs[1..], sep, cur + [sep]);
      } else {
        PartsOfNothing(sep, []);
      }
    } else if rs[0][0] != sep {
      FirstByteJoined(rs, sep);
      PartsOfJoinAtMost(rs, sep, []);
    } else {
      var shorter := rs[0 := rs[0][1..]];
      SeparatorOff(rs, sep);
      assert text[1..] == [sep] + JoinRaw(shorter, sep);
      PartsOfLedJoinAtMost(shorter, sep, cur + [sep]);
    }
  }

  lemma EmptyFirstJoined(rs: seq<seq<byte>>, sep: byte)
    requires rs != [] && rs[0] == []
    ensures JoinRaw(rs, sep) == if |rs| == 1 then [] else [sep] + JoinRaw(rs[1..], sep)
  {}

  lemma FirstByteJoined(rs: seq<seq<byte>>, sep: byte)
    requires rs != [] && rs[0] != []
    ensures JoinRaw(rs, sep) != [] && JoinRaw(rs, sep)[0] == rs[0][0]
  {}

  lemma SeparatorOff(rs: seq<seq<byte>>, sep: byte)
    requires rs != [] && rs[0] != [] && rs[0][0] == sep
    ensures JoinRaw(rs, sep) == [sep, sep] + JoinRaw(rs[0 := rs[0][1..]], sep)
  {
    var shorter := rs[0 := rs[0][1..]];
    assert shorter[1..] == rs[1..];
  }

  // ------------------------------------------------------------ cutting a join in two

  lemma {:induction false} JoinOfTwo(rs: seq<seq<byte>>, more: seq<seq<byte>>, sep: byte)
    requires rs != [] && more != []
    ensures JoinRaw(rs + more, sep) == JoinRaw(rs, sep) + [sep] + JoinRaw(more, sep)
    decreases |more|
  {
    hide Escaped;
    var n := |more| - 1;
    JoinSnoc(rs + more[..n], more[n], sep);
    assert rs + more == rs + more[..n] + [more[n]];
    if n == 0 {
      assert rs + more[..n] == rs;
    } else {
      JoinOfTwo(rs, more[..n], sep);
      JoinSnoc(more[..n], more[n], sep);
      assert more == more[..n] + [more[n]];
      ConcatAgain(JoinRaw(rs, sep) + [sep], JoinRaw(more[..n], sep), [sep], Escaped(more[n], sep));
    }
  }

  lemma ConcatAgain<T>(a: seq<T>, b: seq<T>, c: seq<T>, d: seq<T>)
    ensures a + b + c + d == a + (b + c + d)
  {}

  /** A separator with no other one beside it always ends a part. */
  lemma {:induction false} PartsOfTwo(s: seq<byte>, t: seq<byte>, sep: byte, cur: seq<byte>)
    requires s == [] || s[|s| - 1] != sep
    requires t == [] || t[0] != sep
    ensures Parts(s + [sep] + t, sep, cur) == Parts(s, sep, cur) + Parts(t, sep, [])
    decreases |s|
  {
    var u := s + [sep] + t;
    if s == [] {
      assert u == [sep] + t;
      PartsAtSeparator(t, sep, cur);
      PartsOfNothing(sep, cur);
    } else if s[0] != sep {
      assert u[1..] == s[1..] + [sep] + t;
      PartsOfTwo(s[1..], t, sep, cur + [s[0]]);
    } else if s[1] == sep {
      assert u[2..] == s[2..] + [sep] + t;
      PartsOfTwo(s[2..], t, sep, cur + [sep]);
    } else {
      assert u[1..] == s[1..] + [sep] + t;
      PartsOfTwo(s[1..], t, sep, []);
    }
  }

  // ------------------------------------------------------------ how long a join is

  lemma {:induction false} EscapedAtMost(p: seq<byte>, sep: byte)
    ensures |Escaped(p, sep)| <= 2 * |p|
    decreases |p|
  {
    if p != [] {
      EscapedAtMost(p[1..], sep);
    }
  }

  /** What a join of parts of at most k bytes takes at most. */
  lemma {:induction false} JoinAtMost(rs: seq<seq<byte>>, sep: byte, k: nat)
    requires forall i | 0 <= i < |rs| :: |rs[i]| <= k
    ensures |JoinRaw(rs, sep)| <= |rs| * (2 * k + 1)
    decreases |rs|
  {
    hide Escaped;
    if rs != [] {
      EscapedAtMost(rs[0], sep);
      JoinAtMost(rs[1..], sep, k);
      assert |rs| * (2 * k + 1) == (|rs| - 1) * (2 * k + 1) + (2 * k + 1);
    }
  }
}
