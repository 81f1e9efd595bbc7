/** strings_split and strings_join over the buffers they write, proved against the tokenizer
    and the joiner of module Strings. A C string is a stretch of a buffer up to a NUL; a part
    is the position where it starts, or NULL. */
module StringsInPlace {
  import opened Constants
  import opened Strings

  /** The C string p stands in a from position at. */
  ghost predicate Holds(a: seq<byte>, at: int, p: seq<byte>) {
    && 0 <= at && at + |p| < |a|
    && a[at..at + |p|] == p && NUL !in p && a[at + |p|] == NUL
  }

  /** The finished parts ps stand at their starts, one behind the other, each with room for a
      terminator after its first byte: only an empty first part cut off by a lone separator at
      the start of the string has none. */
  ghost predicate Finished(a: seq<byte>, starts: seq<int>, ps: seq<seq<byte>>, lone: bool) {
    && |ps| < |starts|
    && (forall i | 0 <= i < |ps| :: Holds(a, starts[i], ps[i]))
    && (forall i | 0 <= i < |ps| :: Behind(starts, ps, i, lone))
    && (|ps| > 0 ==> starts[0] == 0)
    && (|ps| > 0 && lone ==> ps[0] == [] && starts[1] == 1)
  }

  ghost predicate Behind(starts: seq<int>, ps: seq<seq<byte>>, i: int, lone: bool)
    requires 0 <= i < |ps| < |starts|
  {
    && starts[i] >= 0 && starts[i] + |ps[i]| < starts[i + 1]
    && (ps[i] == [] && !(i == 0 && lone) ==> starts[i] + 1 < starts[i + 1])
  }

  /** Between two steps of the loop: sPos bytes of s are read, the current part starts at p and
      has dPos bytes, and nothing behind sPos has been written. */
  ghost predicate Splitting(s: seq<byte>, sep: byte, trim: bool, a: seq<byte>, starts: seq<int>,
                            sPos: nat, p: nat, dPos: nat, ps: seq<seq<byte>>)
  {
    && NUL !in s
    && p + dPos <= sPos <= |s| < |a| && a[sPos..|s| + 1] == s[sPos..] + [NUL]
    && Finished(a, starts, ps, LoneStart(s, sep)) && starts[|ps|] == p
    && NUL !in a[p..p + dPos]
    && ps + Scan(s[sPos..], sep, trim, a[p..p + dPos]) == Scan(s, sep, trim, [])
    && (ps == [] ==> p == 0 && (LoneStart(s, sep) ==> sPos == 0))
    && (p > 0 && sPos == p && sPos < |s| ==> s[sPos] != sep)
  }

  /** Writing at or behind the start of the current part leaves the finished ones alone. */
  lemma FinishedKept(a: seq<byte>, b: seq<byte>, starts: seq<int>, ps: seq<seq<byte>>, lone: bool, p: nat)
    requires Finished(a, starts, ps, lone) && starts[|ps|] == p
    requires |a| == |b| && p <= |a| && a[..p] == b[..p]
    ensures Finished(b, starts, ps, lone)
  {
    forall i | 0 <= i < |ps|
      ensures Holds(b, starts[i], ps[i])
    {
      StartsAscend(starts, ps, lone, i, |ps|);
      assert a[starts[i]..starts[i] + |ps[i]|] == a[..p][starts[i]..starts[i] + |ps[i]|];
      assert b[starts[i]..starts[i] + |ps[i]|] == b[..p][starts[i]..starts[i] + |ps[i]|];
      assert a[..p][starts[i] + |ps[i]|] == b[..p][starts[i] + |ps[i]|];
    }
  }

  lemma {:induction false} StartsAscend(starts: seq<int>, ps: seq<seq<byte>>, lone: bool, i: nat, j: nat)
    requires i < j <= |ps| < |starts|
    requires forall k | 0 <= k < |ps| :: Behind(starts, ps, k, lone)
    ensures starts[i] + |ps[i]| < starts[j] && starts[i + 1] <= starts[j]
    decreases j - i
  {
    if i + 1 < j {
      StartsAscend(starts, ps, lone, i + 1, j);
      assert Behind(starts, ps, i, lone);
    } else {
      assert Behind(starts, ps, i, lone);
    }
  }

  /** A byte goes to the current part: an ordinary one, or one of a doubled separator. */
  lemma StepByte(s: seq<byte>, sep: byte, trim: bool, a: seq<byte>, starts: seq<int>,
                 sPos: nat, p: nat, dPos: nat, ps: seq<seq<byte>>, n: nat)
    requires Splitting(s, sep, trim, a, starts, sPos, p, dPos, ps) && sPos < |s|
    requires if s[sPos] == sep then n == 2 && sPos + 1 < |s| && s[sPos + 1] == sep
             else n == 1 && !(dPos == 0 && trim && IsSpace(s[sPos]))
    ensures p + dPos < |a|
    ensures Splitting(s, sep, trim, a[p + dPos := s[sPos]], starts, sPos + n, p, dPos + 1, ps)
  {
    var b := a[p + dPos := s[sPos]];
    FinishedKept(a, b, starts, ps, LoneStart(s, sep), p);
    assert b[p..p + dPos + 1] == a[p..p + dPos] + [s[sPos]];
    assert s[sPos..][1..] == s[sPos + 1..];
    if n == 2 {
      assert s[sPos..][2..] == s[sPos + 2..];
    }
    assert b[sPos + n..|s| + 1] == a[sPos..|s| + 1][n..];
  }

  /** A leading blank is dropped. */
  lemma StepSkip(s: seq<byte>, sep: byte, trim: bool, a: seq<byte>, starts: seq<int>,
                 sPos: nat, p: nat, ps: seq<seq<byte>>)
    requires Splitting(s, sep, trim, a, starts, sPos, p, 0, ps) && sPos < |s|
    requires s[sPos] != sep && trim && IsSpace(s[sPos])
    ensures Splitting(s, sep, trim, a, starts, sPos + 1, p, 0, ps)
  {
    assert s[sPos..][1..] == s[sPos + 1..];
    assert a[p..p] == [];
    assert a[sPos + 1..|s| + 1] == a[sPos..|s| + 1][1..];
  }

  /** A single separator ends the current part; the next one starts right behind it. */
  lemma StepPart(s: seq<byte>, sep: byte, trim: bool, a: seq<byte>, starts: seq<int>,
                 sPos: nat, p: nat, dPos: nat, ps: seq<seq<byte>>)
    requires Splitting(s, sep, trim, a, starts, sPos, p, dPos, ps) && sPos < |s|
    requires s[sPos] == sep && !(sPos + 1 < |s| && s[sPos + 1] == sep)
    requires |ps| + 1 < |starts|
    ensures p + dPos < |a|
    ensures Splitting(s, sep, trim, a[p + dPos := NUL], starts[|ps| + 1 := sPos + 1], sPos + 1, sPos + 1, 0, ps + [a[p..p + dPos]])
  {
    var b := a[p + dPos := NUL];
    var cur := a[p..p + dPos];
    var starts' := starts[|ps| + 1 := sPos + 1];
    FinishedKept(a, b, starts, ps, LoneStart(s, sep), p);
    assert b[p..p + dPos] == cur;
    assert s[sPos..][1..] == s[sPos + 1..];
    assert b[sPos + 1..sPos + 1] == [];
    assert b[sPos + 1..|s| + 1] == a[sPos..|s| + 1][1..];
    assert ps + ([cur] + Scan(s[sPos + 1..], sep, trim, [])) == ps + [cur] + Scan(s[sPos + 1..], sep, trim, []);
    FinishedGrows(a, b, starts, starts', ps, cur, LoneStart(s, sep), p);
  }

  lemma FinishedGrows(a: seq<byte>, b: seq<byte>, starts: seq<int>, starts': seq<int>, ps: seq<seq<byte>>, cur: seq<byte>, lone: bool, p: nat)
    requires Finished(b, starts, ps, lone) && starts[|ps|] == p && |ps| + 1 < |starts| == |starts'|
    requires starts' == starts[|ps| + 1 := starts'[|ps| + 1]]
    requires ps == [] ==> p == 0 && (lone ==> cur == [] && starts'[1] == 1)
    requires Holds(b, p, cur) && p + |cur| < starts'[|ps| + 1]
    requires cur == [] && !(ps == [] && lone) ==> p + 1 < starts'[|ps| + 1]
    ensures Finished(b, starts', ps + [cur], lone)
  {
    var qs := ps + [cur];
    forall i | 0 <= i < |qs|
      ensures Holds(b, starts'[i], qs[i]) && Behind(starts', qs, i, lone)
    {
      if i < |ps| {
        assert Behind(starts, ps, i, lone);
      }
    }
  }

  // ------------------------------------------------------------ trimming on the right

  /** Part k after the first i parts have been trimmed, all being the parts before. */
  function Content(all: seq<seq<byte>>, lone: bool, i: nat, k: nat): (p: seq<byte>)
    requires k < |all|
    ensures |p| <= |all[k]|
  {
    if lone && k == 1 && i > 0 then []
    else if k < i && k < |all| - 1 then (RightTrimShortens(all[k]); RightTrim(all[k]))
    else all[k]
  }

  lemma RightTrimShortens(p: seq<byte>)
    ensures |RightTrim(p)| <= |p| && RightTrim(p) == p[..|RightTrim(p)|]
  {}

  /** d is where the source finds the last byte that is not whitespace, or 0. */
  ghost predicate LastSolid(p: seq<byte>, n: nat, d: nat)
    requires n <= |p|
  {
    && (d == 0 || d < n)
    && (0 < d ==> !IsSpace(p[d]))
    && forall m | d < m < n :: IsSpace(p[m])
  }

  lemma {:induction false} RightTrimEnds(p: seq<byte>, d: nat)
    requires p != [] && LastSolid(p, |p|, d)
    ensures RightTrim(p) == p[..d + 1]
    decreases |p|
  {
    if |p| > 1 && IsSpace(p[|p| - 1]) {
      RightTrimEnds(p[..|p| - 1], d);
    }
  }

  ghost predicate AllBehind(starts: seq<int>, ps: seq<seq<byte>>, lone: bool)
    requires |ps| < |starts|
  {
    forall k | 0 <= k < |ps| :: Behind(starts, ps, k, lone)
  }

  /** Where the parts stand; the trims do not move them. */
  ghost predicate Layout(size: nat, starts: seq<int>, all: seq<seq<byte>>, lone: bool) {
    && 0 < |all| <= |starts|
    && AllBehind(starts, all[..|all| - 1], lone)
    && starts[0] == 0 && (lone && |all| > 1 ==> all[0] == [] && starts[1] == 1)
    && 0 <= starts[|all| - 1] && starts[|all| - 1] + |all[|all| - 1]| < size
  }

  ghost predicate Trimming(a: seq<byte>, starts: seq<int>, all: seq<seq<byte>>, lone: bool, i: nat) {
    && Layout(|a|, starts, all, lone) && i < |all| <= |starts|
    && forall k | 0 <= k < |all| :: Holds(a, starts[k], Content(all, lone, i, k))
  }

  /** The terminator that trims part i falls inside part i, or right behind an empty one. */
  lemma TrimStaysInside(size: nat, starts: seq<int>, all: seq<seq<byte>>, lone: bool, i: nat, d: nat, k: nat)
    requires Layout(size, starts, all, lone) && i < |all| - 1 && k < |all|
    requires var c := Content(all, lone, i, i); LastSolid(c, |c|, d)
    ensures 0 <= starts[i] + d + 1 < size
    ensures k < i ==> starts[k] + |all[k]| < starts[i] + d + 1
    ensures k > i && !(lone && i == 0 && k == 1) ==> starts[i] + d + 1 < starts[k]
  {
    hide RightTrim;
    var ps := all[..|all| - 1];
    assert Behind(starts, ps, i, lone);
    StartsAscend(starts, ps, lone, i, |ps|);
    if k < i {
      StartsAscend(starts, ps, lone, k, i);
    } else if k > i {
      StartsAscend(starts, ps, lone, i, k);
      if lone && i == 0 && k > 1 {
        StartsAscend(starts, ps, lone, 1, k);
      }
    }
  }

  lemma StepTrimPart(a: seq<byte>, starts: seq<int>, all: seq<seq<byte>>, lone: bool, i: nat, d: nat, k: nat)
    requires Trimming(a, starts, all, lone, i) && i < |all| - 1 && k < |all|
    requires var c := Content(all, lone, i, i); LastSolid(c, |c|, d)
    requires 0 <= starts[i] + d + 1 < |a|
    ensures Holds(a[starts[i] + d + 1 := NUL], starts[k], Content(all, lone, i + 1, k))
  {
    hide RightTrim, Layout, LastSolid, Holds;
    TrimStaysInside(|a|, starts, all, lone, i, d, k);
    assert Holds(a, starts[k], Content(all, lone, i, k));
    if k == i {
      TrimmedPart(a, starts[i], Content(all, lone, i, i), d);
      RightTrimEmpty();
    } else if lone && i == 0 && k == 1 {
      SecondPartLost(a, starts, all, lone, d);
    } else {
      OtherPart(a, starts[k], Content(all, lone, i, k), starts[i] + d + 1);
    }
  }

  lemma RightTrimEmpty()
    ensures RightTrim([]) == []
  {}

  lemma SecondPartLost(a: seq<byte>, starts: seq<int>, all: seq<seq<byte>>, lone: bool, d: nat)
    requires Layout(|a|, starts, all, lone) && |all| > 1 && lone && LastSolid(all[0], |all[0]|, d)
    ensures starts[0] + d + 1 == starts[1] < |a|
    ensures Holds(a[starts[0] + d + 1 := NUL], starts[1], [])
  {
    if |all| > 2 {
      StartsAscend(starts, all[..|all| - 1], lone, 1, |all| - 1);
    }
    assert a[1 := NUL][1..1] == [];
  }

  /** Trimming part i writes one terminator, and no other part notices but the second of a string
      that starts with a lone separator. */
  lemma StepTrim(a: seq<byte>, starts: seq<int>, all: seq<seq<byte>>, lone: bool, i: nat, d: nat)
    requires Trimming(a, starts, all, lone, i) && i < |all| - 1
    requires var c := Content(all, lone, i, i); LastSolid(c, |c|, d)
    ensures 0 <= starts[i] + d + 1 < |a|
    ensures Trimming(a[starts[i] + d + 1 := NUL], starts, all, lone, i + 1)
  {
    hide RightTrim, LastSolid, Holds, Layout, Content;
    TrimStaysInside(|a|, starts, all, lone, i, d, i);
    forall k | 0 <= k < |all|
      ensures Holds(a[starts[i] + d + 1 := NUL], starts[k], Content(all, lone, i + 1, k))
    {
      StepTrimPart(a, starts, all, lone, i, d, k);
    }
  }

  lemma TrimmedPart(a: seq<byte>, at: int, c: seq<byte>, d: nat)
    requires Holds(a, at, c) && LastSolid(c, |c|, d) && at + d + 1 < |a|
    ensures Holds(a[at + d + 1 := NUL], at, RightTrim(c))
  {
    var b := a[at + d + 1 := NUL];
    if c == [] {
      assert b[at..at] == [];
    } else {
      RightTrimEnds(c, d);
      assert b[at..at + d + 1] == a[at..at + |c|][..d + 1];
    }
  }

  lemma OtherPart(a: seq<byte>, at: int, c: seq<byte>, w: int)
    requires Holds(a, at, c) && 0 <= w < |a| && (w < at || at + |c| < w)
    ensures Holds(a[w := NUL], at, c)
  {
    assert a[w := NUL][at..at + |c|] == a[at..at + |c|];
  }

  // ------------------------------------------------------------ strings_split

  /** The end of the scan: all parts stand, the last one with its terminator. */
  lemma ScanEnds(s: seq<byte>, sep: byte, trim: bool, a: seq<byte>, starts: seq<int>, p: nat, dPos: nat, ps: seq<seq<byte>>)
    requires Splitting(s, sep, trim, a, starts, |s|, p, dPos, ps)
    ensures p + dPos < |a|
    ensures Scan(s, sep, trim, []) == ps + [a[p..p + dPos]]
    ensures Trimming(a[p + dPos := NUL], starts, ps + [a[p..p + dPos]], LoneStart(s, sep), 0)
  {
    var cur, b := a[p..p + dPos], a[p + dPos := NUL];
    var all := ps + [cur];
    assert s[|s|..] == [];
    assert all[..|all| - 1] == ps;
    FinishedKept(a, b, starts, ps, LoneStart(s, sep), p);
    assert b[p..p + dPos] == cur;
  }

  /** The strings ps stand where the parts array says. */
  ghost predicate Delivered(a: seq<byte>, starts: seq<int>, ps: seq<seq<byte>>) {
    && |ps| <= |starts|
    && forall k | 0 <= k < |ps| :: Holds(a, starts[k], ps[k])
  }

  /** After the trims, or without any, the parts are the result of the split. */
  lemma SplitDone(s: seq<byte>, sep: byte, trim: bool, a: seq<byte>, starts: seq<int>, all: seq<seq<byte>>)
    requires all == Scan(s, sep, trim, [])
    requires Trimming(a, starts, all, LoneStart(s, sep), if trim then |all| - 1 else 0)
    ensures Delivered(a, starts, SplitResult(s, sep, trim))
  {
    hide RightTrim, Layout, Scan;
    var lone := LoneStart(s, sep);
    if trim && lone {
      LoneStartHasTwoParts(s, sep, trim);
    }
    forall k | 0 <= k < |all|
      ensures Holds(a, starts[k], SplitResult(s, sep, trim)[k])
    {
      assert Content(all, lone, if trim then |all| - 1 else 0, k) == SplitResult(s, sep, trim)[k];
    }
  }

  /** The position of the last byte that is not whitespace in the string at position at, or 0. */
  method FindLastSolid(str: array<byte>, at: nat, ghost c: seq<byte>) returns (dPos: nat)
    requires Holds(str[..], at, c)
    ensures LastSolid(c, |c|, dPos)
  {
    var sPos := 0;
    dPos := 0;
    while str[at + sPos] != NUL
      invariant 0 <= sPos <= |c| && LastSolid(c, sPos, dPos)
      decreases |c| - sPos
    {
      assert str[at + sPos] == str[..][at..at + |c|][sPos];
      if !IsSpace(str[at + sPos]) {
        dPos := sPos;
      }
      sPos := sPos + 1;
    }
  }

  /** The trims of all parts but the last. */
  method TrimEnds(str: array<byte>, parts: array<int>, partCount: nat, ghost all: seq<seq<byte>>, ghost lone: bool)
    requires partCount == |all| && Trimming(str[..], parts[..], all, lone, 0)
    modifies str
    ensures Trimming(str[..], parts[..], all, lone, partCount - 1)
  {
    hide Trimming, LastSolid;
    var i := 0;
    TrimmingBounds(str[..], parts[..], all, lone, 0);
    while i < partCount - 1
      invariant 0 <= i <= partCount - 1 < parts.Length && Trimming(str[..], parts[..], all, lone, i)
    {
      TrimmingPart(str[..], parts[..], all, lone, i);
      var dPtr := parts[i];
      var dPos := FindLastSolid(str, dPtr, Content(all, lone, i, i));
      StepTrim(str[..], parts[..], all, lone, i, dPos);
      ghost var before := str[..];
      str[dPtr + dPos + 1] := NUL;
      assert str[..] == before[dPtr + dPos + 1 := NUL];
      i := i + 1;
    }
  }

  lemma TrimmingBounds(a: seq<byte>, starts: seq<int>, all: seq<seq<byte>>, lone: bool, i: nat)
    requires Trimming(a, starts, all, lone, i)
    ensures 0 < |all| <= |starts| && i < |all|
  {}

  lemma TrimmingPart(a: seq<byte>, starts: seq<int>, all: seq<seq<byte>>, lone: bool, i: nat)
    requires Trimming(a, starts, all, lone, i)
    ensures i < |all| <= |starts| && Holds(a, starts[i], Content(all, lone, i, i))
  {}

  /** Splits the string at the start of str in place. The parts array needs one entry more than
      maxParts: the source writes it before it reports the overflow. */
  method StringsSplit(str: array<byte>, ghost s: seq<byte>, separator: byte, parts: array<int>, maxParts: nat, trim: bool)
    returns (status: Status, partCount: nat)
    requires Holds(str[..], 0, s) && |s| < 0x1_0000
    requires maxParts < parts.Length && maxParts < 255
    modifies str, parts
    ensures maxParts == 0 ==> status == OK && str[..] == old(str[..]) && parts[..] == old(parts[..])
    ensures maxParts > 0 ==> status == if |SplitResult(s, separator, trim)| > maxParts then ERROR_PARTS_OVERFLOW else OK
    ensures maxParts > 0 && status == OK ==>
      && partCount == |SplitResult(s, separator, trim)|
      && Delivered(str[..], parts[..], SplitResult(s, separator, trim))
      && (forall k | partCount <= k < maxParts :: parts[k] == NULL)
  {
    hide SplitResult, Scan, Holds, Trimming, Delivered;
    if maxParts == 0 {
      return OK, 0;
    }
    ghost var all;
    status, partCount, all := ScanParts(str, s, separator, parts, maxParts, trim);
    if status != OK {
      return;
    }
    if trim {
      TrimEnds(str, parts, partCount, all, LoneStart(s, separator));
    }
    SplitDone(s, separator, trim, str[..], parts[..], all);
    ghost var starts := parts[..];
    ClearRest(parts, partCount, maxParts);
    DeliveredKept(str[..], starts, parts[..], SplitResult(s, separator, trim));
  }

  lemma DeliveredKept(a: seq<byte>, starts: seq<int>, starts': seq<int>, ps: seq<seq<byte>>)
    requires Delivered(a, starts, ps) && |ps| <= |starts'| && starts[..|ps|] == starts'[..|ps|]
    ensures Delivered(a, starts', ps)
  {
    forall k | 0 <= k < |ps|
      ensures Holds(a, starts'[k], ps[k])
    {
      assert starts'[k] == starts'[..|ps|][k] == starts[..|ps|][k];
    }
  }

  method ClearRest(parts: array<int>, partCount: nat, maxParts: nat)
    requires partCount <= maxParts < parts.Length
    modifies parts
    ensures parts[..partCount] == old(parts[..partCount])
    ensures forall k | partCount <= k < maxParts :: parts[k] == NULL
  {
    var i := partCount;
    while i < maxParts
      invariant partCount <= i <= maxParts
      invariant parts[..partCount] == old(parts[..partCount])
      invariant forall k | partCount <= k < i :: parts[k] == NULL
    {
      parts[i] := NULL;
      i := i + 1;
    }
  }

  /** The scan: unescapes and left-trims in place. */
  method ScanParts(str: array<byte>, ghost s: seq<byte>, separator: byte, parts: array<int>, maxParts: nat, trim: bool)
    returns (status: Status, partCount: nat, ghost all: seq<seq<byte>>)
    requires Holds(str[..], 0, s)
    requires 0 < maxParts < parts.Length
    modifies str, parts
    ensures all == Scan(s, separator, trim, [])
    ensures status == if |all| > maxParts then ERROR_PARTS_OVERFLOW else OK
    ensures status == OK ==> partCount == |all| && Trimming(str[..], parts[..], all, LoneStart(s, separator), 0)
  {
    hide Splitting, Scan, Trimming;
    all := Scan(s, separator, trim, []);
    var dPtr, dPos, sPos := 0, 0, 0;
    partCount := 1;
    parts[0] := dPtr;
    ghost var ps: seq<seq<byte>> := [];
    SplitStarts(s, separator, trim, str[..], parts[..]);
    SplittingBounds(s, separator, trim, str[..], parts[..], sPos, dPtr, dPos, ps);
    while str[sPos] != NUL
      invariant Splitting(s, separator, trim, str[..], parts[..], sPos, dPtr, dPos, ps)
      invariant partCount == |ps| + 1 <= maxParts && sPos <= |s| < str.Length && dPtr + dPos <= sPos
      invariant str[sPos] == if sPos < |s| then s[sPos] else NUL
      decreases |s| - sPos
    {
      label L:
      SplittingNext(s, separator, trim, str[..], parts[..], sPos, dPtr, dPos, ps);
      if str[sPos] == separator {
        if str[sPos + 1] == separator {
          // an escaped separator
          KeepByte(str, s, separator, trim, parts[..], sPos, dPtr, dPos, ps, 2);
          dPos := dPos + 1;
          sPos := sPos + 1;
        } else {
          EndPart(str, s, separator, trim, parts, partCount, sPos, dPtr, dPos, ps);
          ps := ps + [old@L(str[..])[dPtr..dPtr + dPos]];
          dPtr := sPos + 1;
          partCount := partCount + 1;
          if partCount > maxParts {
            MorePartsToCome(s, separator, trim, str[..], parts[..], sPos + 1, dPtr, 0, ps);
            return ERROR_PARTS_OVERFLOW, partCount, all;
          }
          dPos := 0;
        }
      } else {
        // leave out whitespace at the beginning of a part
        if !(dPos == 0 && trim && IsSpace(str[sPos])) {
          KeepByte(str, s, separator, trim, parts[..], sPos, dPtr, dPos, ps, 1);
          dPos := dPos + 1;
        } else {
          StepSkip(s, separator, trim, str[..], parts[..], sPos, dPtr, ps);
        }
      }
      sPos := sPos + 1;
      SplittingBounds(s, separator, trim, str[..], parts[..], sPos, dPtr, dPos, ps);
    }
    ScanEnds(s, separator, trim, str[..], parts[..], dPtr, dPos, ps);
    ghost var before := str[..];
    str[dPtr + dPos] := NUL;
    assert str[..] == before[dPtr + dPos := NUL];
    status := OK;
  }

  /** The store of one byte of the current part. */
  method KeepByte(str: array<byte>, ghost s: seq<byte>, separator: byte, trim: bool, ghost starts: seq<int>,
                  sPos: nat, dPtr: nat, dPos: nat, ghost ps: seq<seq<byte>>, ghost n: nat)
    requires Splitting(s, separator, trim, str[..], starts, sPos, dPtr, dPos, ps) && sPos < |s|
    requires if s[sPos] == separator then n == 2 && sPos + 1 < |s| && s[sPos + 1] == separator
             else n == 1 && !(dPos == 0 && trim && IsSpace(s[sPos]))
    modifies str
    ensures Splitting(s, separator, trim, str[..], starts, sPos + n, dPtr, dPos + 1, ps)
  {
    hide Splitting;
    ghost var before := str[..];
    SplittingBounds(s, separator, trim, str[..], starts, sPos, dPtr, dPos, ps);
    StepByte(s, separator, trim, before, starts, sPos, dPtr, dPos, ps, n);
    str[dPtr + dPos] := str[sPos];
    assert str[..] == before[dPtr + dPos := s[sPos]];
  }

  /** The end of a part at a single separator. */
  method EndPart(str: array<byte>, ghost s: seq<byte>, separator: byte, trim: bool, parts: array<int>,
                 partCount: nat, sPos: nat, dPtr: nat, dPos: nat, ghost ps: seq<seq<byte>>)
    requires Splitting(s, separator, trim, str[..], parts[..], sPos, dPtr, dPos, ps) && sPos < |s|
    requires s[sPos] == separator && !(sPos + 1 < |s| && s[sPos + 1] == separator)
    requires partCount == |ps| + 1 < parts.Length
    modifies str, parts
    ensures dPtr + dPos <= str.Length
    ensures Splitting(s, separator, trim, str[..], parts[..], sPos + 1, sPos + 1, 0, ps + [old(str[..])[dPtr..dPtr + dPos]])
  {
    hide Splitting;
    ghost var before, starts := str[..], parts[..];
    SplittingBounds(s, separator, trim, str[..], starts, sPos, dPtr, dPos, ps);
    StepPart(s, separator, trim, before, starts, sPos, dPtr, dPos, ps);
    str[dPtr + dPos] := NUL;
    assert str[..] == before[dPtr + dPos := NUL];
    parts[partCount] := sPos + 1;
    assert parts[..] == starts[|ps| + 1 := sPos + 1];
  }

  lemma SplitStarts(s: seq<byte>, sep: byte, trim: bool, a: seq<byte>, starts: seq<int>)
    requires Holds(a, 0, s) && |starts| > 0 && starts[0] == 0
    ensures Splitting(s, sep, trim, a, starts, 0, 0, 0, [])
  {
    assert s[0..] == s && a[0..0] == [];
    assert a[0..|s| + 1] == a[0..|s|] + [NUL];
  }

  lemma SplittingBounds(s: seq<byte>, sep: byte, trim: bool, a: seq<byte>, starts: seq<int>, sPos: nat, p: nat, dPos: nat, ps: seq<seq<byte>>)
    requires Splitting(s, sep, trim, a, starts, sPos, p, dPos, ps)
    ensures sPos <= |s| < |a| && p + dPos <= sPos && |ps| < |starts|
    ensures a[sPos] == if sPos < |s| then s[sPos] else NUL
  {
    assert a[sPos] == a[sPos..|s| + 1][0];
  }

  lemma SplittingNext(s: seq<byte>, sep: byte, trim: bool, a: seq<byte>, starts: seq<int>, sPos: nat, p: nat, dPos: nat, ps: seq<seq<byte>>)
    requires Splitting(s, sep, trim, a, starts, sPos, p, dPos, ps) && sPos < |s|
    ensures sPos + 1 < |a| && a[sPos + 1] == (if sPos + 1 < |s| then s[sPos + 1] else NUL) && s[sPos] != NUL
  {
    assert a[sPos + 1] == a[sPos..|s| + 1][1];
  }

  lemma MorePartsToCome(s: seq<byte>, sep: byte, trim: bool, a: seq<byte>, starts: seq<int>, sPos: nat, p: nat, dPos: nat, ps: seq<seq<byte>>)
    requires Splitting(s, sep, trim, a, starts, sPos, p, dPos, ps)
    ensures |Scan(s, sep, trim, [])| > |ps|
  {
    hide Scan;
  }

  // ------------------------------------------------------------ strings_join

  /** Joins the parts into dest. The source checks the length after it has written, so dest needs
      the entry at index maxLength. It fails exactly when the join is longer than maxLength - 2. */
  method StringsJoin(parts: seq<seq<byte>>, separator: byte, dest: array<byte>, maxLength: nat) returns (status: Status)
    requires separator != NUL && separator != BLANK && forall i | 0 <= i < |parts| :: NUL !in parts[i]
    requires maxLength < dest.Length && 2 <= dest.Length && maxLength < 0xFFFF && |parts| < 256
    modifies dest
    ensures status == if parts != [] && |Join(parts, separator)| + 1 >= maxLength then ERROR_STRINGS_OVERFLOW else OK
    ensures status == OK ==> Holds(dest[..], 0, Join(parts, separator))
  {
    hide Escaped, JoinRaw, JoinedSoFar, Blanked;
    ghost var rs := Blanked(parts);
    BlankedParts(parts);
    NothingJoined(rs, separator);
    var curPart, dPos: nat := 0, 0;
    while curPart < |parts|
      invariant 0 <= curPart <= |parts| && dPos < dest.Length
      invariant dest[..dPos] == JoinedSoFar(rs, separator, curPart)
      invariant dPos < maxLength || (curPart == 0 && dPos == 0)
      invariant curPart == |parts| && curPart > 0 ==> dPos + 1 < maxLength
    {
      JoinedNext(rs, separator, curPart);
      JoinedGrows(rs, separator, curPart + 1);
      ghost var before := dest[..dPos];
      var overflow;
      overflow, dPos := JoinPart(parts[curPart], separator, dest, dPos, maxLength);
      if overflow {
        return ERROR_STRINGS_OVERFLOW;
      }
      if dPos + 1 >= maxLength {
        return ERROR_STRINGS_OVERFLOW;
      }
      curPart := curPart + 1;
      if curPart < |parts| {
        dest[dPos] := separator;
        assert dest[..dPos + 1] == dest[..dPos] + [separator];
        dPos := dPos + 1;
      } else {
        assert before + Escaped(rs[curPart - 1], separator) + [] == before + Escaped(rs[curPart - 1], separator);
      }
    }
    dest[dPos] := NUL;
    AllJoined(rs, separator);
    JoinHasNo(rs, separator, NUL);
    assert dest[..][0..0 + dPos] == dest[..dPos];
    status := OK;
  }

  lemma BlankedParts(ps: seq<seq<byte>>)
    requires forall i | 0 <= i < |ps| :: NUL !in ps[i]
    ensures forall i | 0 <= i < |ps| :: Blanked(ps)[i] == (if ps[i] == [] then [BLANK] else ps[i]) && NUL !in Blanked(ps)[i]
  {}

  lemma NothingJoined(rs: seq<seq<byte>>, sep: byte)
    ensures JoinedSoFar(rs, sep, 0) == [] && (rs == [] ==> JoinRaw(rs, sep) == [])
  {}

  lemma AllJoined(rs: seq<seq<byte>>, sep: byte)
    ensures JoinedSoFar(rs, sep, |rs|) == JoinRaw(rs, sep)
  {
    assert rs[..|rs|] == rs;
  }

  /** One part, escaped, or a blank for an empty one. */
  method JoinPart(part: seq<byte>, separator: byte, dest: array<byte>, at: nat, maxLength: nat)
    returns (overflow: bool, dPos: nat)
    requires separator != BLANK
    requires maxLength < dest.Length && 2 <= dest.Length && (at < maxLength || at == 0)
    modifies dest
    ensures var e := Escaped(if part == [] then [BLANK] else part, separator);
            if overflow then at + |e| + 1 >= maxLength
            else dPos == at + |e| < dest.Length && dest[..dPos] == old(dest[..at]) + e
  {
    hide Escaped;
    dPos := at;
    var sPos := 0;
    EscapedBlank(separator);
    if part == [] {
      ghost var before := dest[..at];
      dest[dPos] := BLANK;
      assert dest[..at + 1] == before + [BLANK];
      dPos := dPos + 1;
      return false, dPos;
    }
    assert dest[..at] == dest[..at] + [];
    assert part[..0] == [];
    while sPos < |part|
      invariant 0 <= sPos <= |part| && dPos < dest.Length
      invariant dPos + 1 < maxLength || (sPos == 0 && dPos == at)
      invariant dPos == at + |Escaped(part[..sPos], separator)|
      invariant dest[..dPos] == old(dest[..at]) + Escaped(part[..sPos], separator)
    {
      assert part[..sPos + 1] == part[..sPos] + [part[sPos]];
      EscapedSnoc(part[..sPos], part[sPos], separator);
      EscapedGrows(part, separator, sPos + 1);
      dPos := PutEscaped(part[sPos], separator, dest, dPos);
      if dPos + 1 >= maxLength {
        return true, dPos;
      }
      sPos := sPos + 1;
    }
    assert part[..sPos] == part;
    overflow := false;
  }

  /** One byte, and the separator once more if it is one. */
  method PutEscaped(b: byte, separator: byte, dest: array<byte>, at: nat) returns (dPos: nat)
    requires at + 1 < dest.Length
    modifies dest
    ensures dPos == at + (if b == separator then 2 else 1)
    ensures dest[..dPos] == old(dest[..at]) + if b == separator then [separator, separator] else [b]
  {
    dPos := at;
    dest[dPos] := b;
    dPos := dPos + 1;
    if b == separator {
      dest[dPos] := separator;
      dPos := dPos + 1;
    }
  }

  lemma EscapedBlank(sep: byte)
    requires sep != BLANK
    ensures Escaped([], sep) == [] && Escaped([BLANK], sep) == [BLANK]
  {
    assert [BLANK][1..] == [];
  }
}
