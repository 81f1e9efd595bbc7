/** The master's own split and join (opdi_StringTools.cpp). */
module StringTools {
  import opened Constants
  import opened Strings

  // ------------------------------------------------------------ what they compute

  /** Meant to drop one leading blank, it drops the whole part. */
  function RemoveLeadingBlank(p: seq<byte>): seq<byte> {
    if p != [] && p[0] == BLANK then [] else p
  }

  function Unblanked(ps: seq<seq<byte>>): (qs: seq<seq<byte>>)
    ensures |qs| == |ps|
  {
    seq(|ps|, i requires 0 <= i < |ps| => RemoveLeadingBlank(ps[i]))
  }

  function MasterSplit(s: seq<byte>, sep: byte): (ps: seq<seq<byte>>)
    ensures |ps| > 0
  {
    Unblanked(Parts(s, sep, []))
  }

  /** The bytes of a part before separators are doubled: an empty part becomes a blank, and a
      leading blank comes twice. */
  function MasterRaw(p: seq<byte>): (r: seq<byte>)
    ensures r != []
  {
    if p == [] then [BLANK, BLANK] else if p[0] == BLANK then [BLANK] + p else p
  }

  function MasterRaws(ps: seq<seq<byte>>): (rs: seq<seq<byte>>)
    ensures |rs| == |ps|
  {
    seq(|ps|, i requires 0 <= i < |ps| => MasterRaw(ps[i]))
  }

  /** The bytes of one part in a join; the extra blank is not escaped. */
  function MasterPart(p: seq<byte>, sep: byte): seq<byte> {
    var q := if p == [] then [BLANK] else p;
    (if q[0] == BLANK then [BLANK] else []) + Escaped(q, sep)
  }

  /** Every part with a separator behind it. */
  function MasterTerminated(ps: seq<seq<byte>>, sep: byte): (s: seq<byte>)
    ensures ps != [] ==> s != [] && s[|s| - 1] == sep
  {
    if ps == [] then []
    else MasterTerminated(ps[..|ps| - 1], sep) + MasterPart(ps[|ps| - 1], sep) + [sep]
  }

  function MasterJoin(ps: seq<seq<byte>>, sep: byte): seq<byte> {
    if ps == [] then [] else MasterTerminated(ps, sep)[..|MasterTerminated(ps, sep)| - 1]
  }

  // ------------------------------------------------------------ the master's join in the slave's terms

  lemma MasterPartIsEscaped(p: seq<byte>, sep: byte)
    requires sep != BLANK
    ensures MasterPart(p, sep) == Escaped(MasterRaw(p), sep)
  {
    if p == [] {
      assert [BLANK, BLANK][1..] == [BLANK];
    } else if p[0] == BLANK {
      assert ([BLANK] + p)[1..] == p;
    }
  }

  lemma {:induction false} MasterTerminatedIsJoin(ps: seq<seq<byte>>, sep: byte)
    requires sep != BLANK && ps != []
    ensures MasterTerminated(ps, sep) == JoinRaw(MasterRaws(ps), sep) + [sep]
    decreases |ps|
  {
    hide Escaped, MasterPart, MasterRaw;
    var n := |ps| - 1;
    MasterPartIsEscaped(ps[n], sep);
    if n == 0 {
      assert ps[..0] == [];
      assert MasterTerminated(ps, sep) == [] + Escaped(MasterRaw(ps[0]), sep) + [sep];
    } else {
      MasterTerminatedIsJoin(ps[..n], sep);
      JoinSnoc(MasterRaws(ps[..n]), MasterRaw(ps[n]), sep);
      assert MasterRaws(ps) == MasterRaws(ps[..n]) + [MasterRaw(ps[n])];
    }
  }

  lemma MasterJoinIsJoin(ps: seq<seq<byte>>, sep: byte)
    requires sep != BLANK
    ensures MasterJoin(ps, sep) == JoinRaw(MasterRaws(ps), sep)
  {
    if ps != [] {
      MasterTerminatedIsJoin(ps, sep);
    }
  }

  // ------------------------------------------------------------ normal form

  ghost predicate MasterSeparable(ps: seq<seq<byte>>, sep: byte) {
    forall i | 0 < i < |ps| :: ps[i] == [] || ps[i][0] != sep
  }

  ghost predicate NoLeadingBlanks(ps: seq<seq<byte>>) {
    forall i | 0 <= i < |ps| :: ps[i] == [] || ps[i][0] != BLANK
  }

  /** After a single separator the tokenizer never finds another one. */
  lemma {:induction false} PartsAreSeparable(s: seq<byte>, sep: byte, cur: seq<byte>)
    ensures MasterSeparable(Parts(s, sep, cur), sep)
    decreases |s|
  {
    if s == [] {
    } else if s[0] != sep {
      PartsAreSeparable(s[1..], sep, cur + [s[0]]);
    } else if |s| > 1 && s[1] == sep {
      PartsAreSeparable(s[2..], sep, cur + [sep]);
    } else {
      PartsAreSeparable(s[1..], sep, []);
      FirstPartIsSeparable(s[1..], sep);
    }
  }

  lemma FirstPartIsSeparable(s: seq<byte>, sep: byte)
    requires s == [] || s[0] != sep
    ensures var p := Parts(s, sep, [])[0]; p == [] || p[0] != sep
  {
    if s != [] {
      PartsKeepCurrent(s[1..], sep, [s[0]]);
      assert [] + [s[0]] == [s[0]];
      assert Parts(s[1..], sep, [s[0]])[0][..1] == [s[0]];
    }
  }

  lemma SplitIsNormal(s: seq<byte>, sep: byte)
    ensures MasterSeparable(MasterSplit(s, sep), sep) && NoLeadingBlanks(MasterSplit(s, sep))
  {
    PartsAreSeparable(s, sep, []);
  }

  lemma RawsSeparableIff(ps: seq<seq<byte>>, sep: byte)
    requires sep != BLANK
    ensures Separable(MasterRaws(ps), sep) <==> MasterSeparable(ps, sep)
  {
    forall i | 0 < i < |ps|
      ensures MasterRaws(ps)[i][0] != sep <==> ps[i] == [] || ps[i][0] != sep
    {
    }
  }

  lemma UnblankedRaw(p: seq<byte>)
    ensures RemoveLeadingBlank(MasterRaw(p)) == p <==> p == [] || p[0] != BLANK
  {}

  /** The master's join comes apart into the parts it was made from exactly when none starts with
      a blank and no later one with the separator. */
  lemma MasterSplitOfJoinIff(ps: seq<seq<byte>>, sep: byte)
    requires ps != [] && sep != BLANK
    ensures MasterSplit(MasterJoin(ps, sep), sep) == ps <==> MasterSeparable(ps, sep) && NoLeadingBlanks(ps)
  {
    hide MasterRaw, RemoveLeadingBlank, Parts, JoinRaw, MasterJoin;
    SplitIsNormal(MasterJoin(ps, sep), sep);
    if MasterSeparable(ps, sep) && NoLeadingBlanks(ps) {
      MasterJoinIsJoin(ps, sep);
      RawsSeparableIff(ps, sep);
      PartsOfJoin(MasterRaws(ps), sep);
      forall i | 0 <= i < |ps|
        ensures MasterSplit(MasterJoin(ps, sep), sep)[i] == ps[i]
      {
        UnblankedRaw(ps[i]);
      }
    }
  }

  /** Parts that the master's join leaves as they are. */
  ghost predicate Unmarked(ps: seq<seq<byte>>) {
    forall i | 0 <= i < |ps| :: ps[i] != [] && ps[i][0] != BLANK
  }

  /** The slave's split without trim finds the parts with the blanks put in front of them, exactly
      when no later part starts with the separator; so it finds the very parts exactly when,
      besides, none is empty or starts with a blank. */
  lemma UntrimmedSplitOfMasterJoinIff(ps: seq<seq<byte>>, sep: byte)
    requires ps != [] && sep != BLANK
    ensures var t := SplitResult(MasterJoin(ps, sep), sep, false);
            && (t == MasterRaws(ps) <==> MasterSeparable(ps, sep))
            && (t == ps <==> MasterSeparable(ps, sep) && Unmarked(ps))
            && |t| <= |ps|
  {
    hide MasterJoin, JoinRaw, Parts, SplitResult;
    var rs := MasterRaws(ps);
    MasterJoinIsJoin(ps, sep);
    RawsSeparableIff(ps, sep);
    SplitResultOfRaws(rs, sep, false);
    PartsOfJoinAtMost(rs, sep, []);
    if Separable(rs, sep) {
      PartsOfJoin(rs, sep);
      RawsUnmarkedIff(ps);
    } else {
      var i := PartsOfInseparable(rs, sep);
    }
  }

  lemma RawsUnmarkedIff(ps: seq<seq<byte>>)
    ensures MasterRaws(ps) == ps <==> Unmarked(ps)
  {
    if MasterRaws(ps) == ps {
      forall i | 0 <= i < |ps|
        ensures ps[i] != [] && ps[i][0] != BLANK
      {
        assert MasterRaw(ps[i]) == ps[i];
      }
    }
  }

  /** Splitting gives a normal form: joining the parts again and splitting loses nothing. */
  lemma SplitJoinSplit(s: seq<byte>, sep: byte)
    requires sep != BLANK
    ensures MasterSplit(MasterJoin(MasterSplit(s, sep), sep), sep) == MasterSplit(s, sep)
  {
    SplitIsNormal(s, sep);
    MasterSplitOfJoinIff(MasterSplit(s, sep), sep);
  }

  // ------------------------------------------------------------ the loops

  /** split. */
  method Split(str: seq<byte>, c: byte) returns (results: seq<seq<byte>>)
    ensures results == MasterSplit(str, c)
  {
    hide RemoveLeadingBlank;
    var sb: seq<byte> := [];
    results := [];
    var i := 0;
    while i < |str|
      invariant 0 <= i <= |str|
      invariant Unblanked(Parts(str, c, [])) == results + Unblanked(Parts(str[i..], c, sb))
    {
      var ch := str[i];
      assert str[i..][1..] == str[i + 1..];
      if ch == c && i + 1 < |str| && str[i + 1] == ch {
        assert str[i..][2..] == str[i + 2..];
        sb := sb + [ch];
        i := i + 1;
      } else if ch == c {
        UnblankedCons(sb, Parts(str[i + 1..], c, []));
        results := results + [RemoveLeadingBlank(sb)];
        sb := [];
      } else {
        sb := sb + [ch];
      }
      i := i + 1;
    }
    results := results + [RemoveLeadingBlank(sb)];
  }

  lemma UnblankedCons(p: seq<byte>, ps: seq<seq<byte>>)
    ensures Unblanked([p] + ps) == [RemoveLeadingBlank(p)] + Unblanked(ps)
  {}

  lemma TerminatedSnoc(ps: seq<seq<byte>>, k: nat, c: byte)
    requires k < |ps|
    ensures MasterTerminated(ps[..k + 1], c) == MasterTerminated(ps[..k], c) + MasterPart(ps[k], c) + [c]
  {
    assert ps[..k + 1][..k] == ps[..k];
  }

  lemma NothingTerminated(c: byte)
    ensures MasterTerminated([], c) == []
  {}

  /** join of the strings but the first skipBegin and the last skipEnd. */
  method JoinStrings(skipBegin: nat, skipEnd: nat, c: byte, strings: seq<seq<byte>>) returns (joined: seq<byte>)
    requires skipBegin + skipEnd <= |strings|
    ensures joined == MasterJoin(strings[skipBegin..|strings| - skipEnd], c)
  {
    hide MasterPart, MasterTerminated;
    ghost var ps := strings[skipBegin..|strings| - skipEnd];
    var sb: seq<byte> := [];
    NothingTerminated(c);
    assert ps[..0] == [];
    var it := skipBegin;
    while it < |strings| - skipEnd
      invariant skipBegin <= it <= |strings| - skipEnd
      invariant sb == MasterTerminated(ps[..it - skipBegin], c)
    {
      TerminatedSnoc(ps, it - skipBegin, c);
      sb := JoinPart(strings[it], c, sb);
      sb := sb + [c];
      it := it + 1;
    }
    assert ps[..|ps|] == ps;
    NothingTerminated(c);
    return if |sb| == 0 then sb else sb[..|sb| - 1];
  }

  /** One string appended to sb. */
  method JoinPart(s: seq<byte>, c: byte, sb: seq<byte>) returns (r: seq<byte>)
    ensures r == sb + MasterPart(s, c)
  {
    hide Escaped;
    var str := if |s| == 0 then [BLANK] else s;
    r := sb;
    ghost var front := if str[0] == BLANK then sb + [BLANK] else sb;
    EscapedNothing(c);
    assert str[..0] == [] && front + [] == front;
    var i := 0;
    while i < |str|
      invariant 0 <= i <= |str| && r == if i == 0 then sb else front + Escaped(str[..i], c)
    {
      var ch := str[i];
      if i == 0 && ch == BLANK {
        r := r + [BLANK];
      }
      assert r == front + Escaped(str[..i], c);
      assert str[..i + 1] == str[..i] + [ch];
      EscapedSnoc(str[..i], ch, c);
      if ch == c {
        r := r + [ch];
      }
      r := r + [ch];
      assert r == front + (Escaped(str[..i], c) + if ch == c then [c, c] else [ch]);
      i := i + 1;
    }
    assert str[..|str|] == str;
    assert r == sb + MasterPart(s, c);
  }
}
