/** 64 bit numbers on the AVR (opdi_platformfuncs.c): printing in place, and the strtoll that reads
    them back. */
module Int64 {
  import opened Constants
  import opened Numbers
  import opened Strings

  const LLONG_MIN := -0x8000_0000_0000_0000
  const LLONG_MAX := 0x7FFF_FFFF_FFFF_FFFF

  type int64 = x: int | LLONG_MIN <= x <= LLONG_MAX

  // ------------------------------------------------------------ printing

  function Reversed(s: seq<byte>): (r: seq<byte>)
    ensures |r| == |s|
  {
    seq(|s|, i requires 0 <= i < |s| => s[|s| - 1 - i])
  }

  /** The text of the smallest number, which has no positive counterpart to print. */
  const SMALLEST: seq<byte> := [45, 57, 50, 50, 51, 51, 55, 50, 48, 51, 54, 56, 53, 52, 55, 55, 53, 56, 48, 56]

  lemma DecimalSnoc(n: nat, d: nat)
    requires n > 0 && d < 10
    ensures Decimal(10 * n + d) == Decimal(n) + [ZERO + d]
  {}

  lemma {:induction false} DecimalOfDigits(s: seq<byte>)
    requires s != [] && s[0] != ZERO && AreDigits(s)
    ensures DigitsValue(s) > 0 && Decimal(DigitsValue(s)) == s
    decreases |s|
  {
    var n := |s| - 1;
    assert IsDigit(s[n]);
    if n == 0 {
      assert s == [s[0]];
      assert s[..0] == [] && DigitsValue(s) == s[0] - ZERO;
    } else {
      DecimalOfDigits(s[..n]);
      DecimalSnoc(DigitsValue(s[..n]), s[n] - ZERO);
      assert s == s[..n] + [s[n]];
    }
  }

  /** The first k digits of the smallest number. */
  function SmallestDigits(k: nat): (s: seq<byte>)
    requires k <= 19
    ensures |s| == k && AreDigits(s)
  {
    SMALLEST[1..k + 1]
  }

  lemma SmallestNext(k: nat, v: nat, d: nat)
    requires k < 19 && d < 10 && SMALLEST[k + 1] == ZERO + d && DigitsValue(SmallestDigits(k)) == v
    ensures DigitsValue(SmallestDigits(k + 1)) == 10 * v + d
  {
    assert SmallestDigits(k + 1)[..k] == SmallestDigits(k);
    assert SmallestDigits(k + 1)[k] == SMALLEST[k + 1];
  }

  lemma SmallestFront()
    ensures DigitsValue(SmallestDigits(10)) == 9223372036
  {
    hide DigitsValue, SmallestDigits;
    NoDigits();
    SmallestNext(0, 0, 9);
    SmallestNext(1, 9, 2);
    SmallestNext(2, 92, 2);
    SmallestNext(3, 922, 3);
    SmallestNext(4, 9223, 3);
    SmallestNext(5, 92233, 7);
    SmallestNext(6, 922337, 2);
    SmallestNext(7, 9223372, 0);
    SmallestNext(8, 92233720, 3);
    SmallestNext(9, 922337203, 6);
  }

  lemma SmallestBack()
    requires DigitsValue(SmallestDigits(10)) == 9223372036
    ensures DigitsValue(SmallestDigits(19)) == 9223372036854775808
  {
    hide DigitsValue, SmallestDigits;
    SmallestNext(10, 9223372036, 8);
    SmallestNext(11, 92233720368, 5);
    SmallestNext(12, 922337203685, 4);
    SmallestNext(13, 9223372036854, 7);
    SmallestNext(14, 92233720368547, 7);
    SmallestNext(15, 922337203685477, 5);
    SmallestNext(16, 9223372036854775, 8);
    SmallestNext(17, 92233720368547758, 0);
    SmallestNext(18, 922337203685477580, 8);
  }

  lemma NoDigits()
    ensures DigitsValue(SmallestDigits(0)) == 0
  {}

  lemma SmallestIsPrinted()
    ensures Signed(LLONG_MIN) == SMALLEST
  {
    hide DigitsValue, Decimal;
    SmallestFront();
    SmallestBack();
    DecimalOfDigits(SmallestDigits(19));
    assert [MINUS] + SmallestDigits(19) == SMALLEST;
  }

  lemma ReversedSnoc(s: seq<byte>, b: byte)
    ensures Reversed(s + [b]) == [b] + Reversed(s)
  {}

  lemma ReversedTwice(s: seq<byte>)
    ensures Reversed(Reversed(s)) == s
  {}

  /** One more digit is written, and so much less of the number is left. */
  lemma DigitWritten(n: nat, written: seq<byte>)
    ensures Decimal(n) + Reversed(written) ==
            (if n < 10 then [] else Decimal(n / 10)) + Reversed(written + [ZERO + n % 10])
  {
    ReversedSnoc(written, ZERO + n % 10);
  }

  /** The digits of n0, last one first. */
  method PrintBackwards(n0: nat, pStr: array<byte>, off: nat) returns (end: nat)
    requires off + |Decimal(n0)| <= pStr.Length
    modifies pStr
    ensures end == off + |Decimal(n0)| && pStr[off..end] == Reversed(Decimal(n0))
    ensures pStr[..off] == old(pStr[..off]) && pStr[end..] == old(pStr[end..])
  {
    hide Decimal, Reversed;
    var n := n0;
    end := off;
    NothingReversed(Decimal(n0));
    assert pStr[off..end] == [];
    while true
      invariant off <= end <= pStr.Length && Decimal(n0) == Decimal(n) + Reversed(pStr[off..end])
      invariant pStr[..off] == old(pStr[..off]) && pStr[end..] == old(pStr[end..])
      decreases n
    {
      ghost var front, written, behind := pStr[..off], pStr[off..end], pStr[end..];
      DigitWritten(n, written);
      pStr[end] := ZERO + n % 10;
      end := end + 1;
      assert pStr[off..end] == written + [ZERO + n % 10] && pStr[..off] == front;
      assert pStr[end..] == behind[1..] == old(pStr[end - 1..])[1..] == old(pStr[end..]);
      if n / 10 == 0 {
        assert Decimal(n0) == Reversed(pStr[off..end]);
        ReversedTwice(pStr[off..end]);
        return;
      }
      n := n / 10;
    }
  }

  lemma NothingReversed(s: seq<byte>)
    ensures s + Reversed([]) == s
  {}

  /** The index that index k changes places with. */
  function Mirrored(off: nat, len: nat, k: int): int { off + off + len - 1 - k }

  /** The outer i places on both ends have been exchanged. */
  ghost predicate HalfReversed(was: seq<byte>, now: seq<byte>, off: nat, len: nat, i: nat) {
    && |now| == |was| && off + len <= |was| && i <= len / 2
    && (forall k | off <= k < off + i || off + len - i <= k < off + len :: now[k] == was[Mirrored(off, len, k)])
    && (forall k | 0 <= k < off || off + i <= k < off + len - i || off + len <= k < |was| :: now[k] == was[k])
  }

  lemma HalfReversedStep(was: seq<byte>, now: seq<byte>, off: nat, len: nat, i: nat)
    requires HalfReversed(was, now, off, len, i) && i < len / 2
    ensures var j := off + len - 1 - i;
            HalfReversed(was, now[off + i := now[j]][j := now[off + i]], off, len, i + 1)
  {}

  lemma WhollyReversed(was: seq<byte>, now: seq<byte>, off: nat, len: nat)
    requires HalfReversed(was, now, off, len, len / 2)
    ensures now[off..off + len] == Reversed(was[off..off + len])
    ensures now[..off] == was[..off] && now[off + len..] == was[off + len..]
  {}

  method ReverseInPlace(pStr: array<byte>, off: nat, len: nat)
    requires off + len <= pStr.Length
    modifies pStr
    ensures pStr[off..off + len] == Reversed(old(pStr[off..off + len]))
    ensures pStr[..off] == old(pStr[..off]) && pStr[off + len..] == old(pStr[off + len..])
  {
    hide HalfReversed, Reversed;
    ghost var was := pStr[..];
    assert HalfReversed(was, was, off, len, 0) by { NothingExchanged(was, off, len); }
    var i := 0;
    while i < len / 2
      invariant 0 <= i <= len / 2 && HalfReversed(was, pStr[..], off, len, i)
    {
      ghost var before := pStr[..];
      HalfReversedStep(was, before, off, len, i);
      var c := pStr[off + i];
      pStr[off + i] := pStr[off + len - 1 - i];
      pStr[off + len - 1 - i] := c;
      assert pStr[..] == before[off + i := before[off + len - 1 - i]][off + len - 1 - i := before[off + i]];
      i := i + 1;
    }
    WhollyReversed(was, pStr[..], off, len);
    assert pStr[..][off..off + len] == pStr[off..off + len];
    assert pStr[..][..off] == pStr[..off] && pStr[..][off + len..] == pStr[off + len..];
  }

  lemma NothingExchanged(was: seq<byte>, off: nat, len: nat)
    requires off + len <= |was|
    ensures HalfReversed(was, was, off, len, 0)
  {}

  /** The digits of n from position off on. */
  method PrintMagnitude(n: nat, pStr: array<byte>, off: nat) returns (end: nat)
    requires off + |Decimal(n)| < pStr.Length
    modifies pStr
    ensures end == off + |Decimal(n)| && pStr[off..end] == Decimal(n) && pStr[end] == NUL
    ensures pStr[..off] == old(pStr[..off]) && pStr[end + 1..] == old(pStr[end + 1..])
  {
    hide Decimal, Reversed;
    end := PrintBackwards(n, pStr, off);
    ReversedTwice(Decimal(n));
    ReverseInPlace(pStr, off, end - off);
    ghost var front, behind := pStr[..end], pStr[end..];
    assert behind == old(pStr[end..]);
    pStr[end] := NUL;
    assert pStr[..end] == front && pStr[end + 1..] == behind[1..] == old(pStr[end..])[1..];
    assert pStr[off..end] == front[off..] && pStr[..off] == front[..off];
  }

  /** opdi_int64_to_str: the buffer gets the text of n, a NUL behind it, and nothing else. */
  method Int64ToStr(n: int64, pStr: array<byte>) returns (length: nat)
    requires |Signed(n)| < pStr.Length
    modifies pStr
    ensures length == |Signed(n)| && pStr[..length] == Signed(n) && pStr[length] == NUL
    ensures pStr[length + 1..] == old(pStr[length + 1..])
  {
    hide Decimal;
    if n < -0x7FFF_FFFF_FFFF_FFFF {
      SmallestIsPrinted();
      length := PrintSmallest(pStr);
    } else if n < 0 {
      pStr[0] := MINUS;
      length := PrintMagnitude(-n, pStr, 1);
      assert pStr[..length] == pStr[..1] + pStr[1..length];
    } else {
      length := PrintMagnitude(n, pStr, 0);
    }
  }

  /** strcpy of the text of the smallest number. */
  method PrintSmallest(pStr: array<byte>) returns (length: nat)
    requires 20 < pStr.Length
    modifies pStr
    ensures length == 20 && pStr[..20] == SMALLEST && pStr[20] == NUL && pStr[21..] == old(pStr[21..])
  {
    forall k | 0 <= k < 20 {
      pStr[k] := SMALLEST[k];
    }
    pStr[20] := NUL;
    return 20;
  }

  // ------------------------------------------------------------ reading

  /** The digits at the front of a text. */
  function DigitRun(s: seq<byte>): (d: seq<byte>)
    ensures d <= s && AreDigits(d)
    ensures |d| < |s| ==> !IsDigit(s[|d|])
  {
    if s == [] || !IsDigit(s[0]) then [] else [s[0]] + DigitRun(s[1..])
  }

  /** The largest magnitude that can be read, for each sign. */
  function Limit(neg: bool): nat { if neg then 0x8000_0000_0000_0000 else 0x7FFF_FFFF_FFFF_FFFF }

  function StrToInt64(s: seq<byte>): Option<int> {
    var n := Number(s);
    if n.Some? && LLONG_MIN <= n.value <= LLONG_MAX then n else None
  }

  /** Every number comes back from its text, the smallest one included. */
  lemma PrintedIsRead(n: int64)
    ensures StrToInt64(Signed(n)) == Some(n)
  {
    NumberOfSigned(n);
  }

  lemma {:induction false} DroppedIsShorter(s: seq<byte>)
    ensures |DropSpaces(s)| <= |s| && DropSpaces(s) == s[|s| - |DropSpaces(s)|..]
    decreases |s|
  {
    if s != [] && IsSpace(s[0]) {
      DroppedIsShorter(s[1..]);
    }
  }

  lemma MagnitudeIsShorter(s: seq<byte>)
    ensures |Magnitude(s)| <= |s|
  {
    DroppedIsShorter(s);
  }

  lemma {:induction false} AllDigits(s: seq<byte>)
    requires AreDigits(s)
    ensures DigitRun(s) == s
    decreases |s|
  {
    if s != [] {
      AllDigits(s[1..]);
    }
  }

  lemma NumberIffAllDigits(s: seq<byte>)
    ensures var body := Magnitude(s); var d := DigitRun(body);
            Number(s) == if d == [] || d != body then None
                         else Some(if Negative(s) then -(DigitsValue(d) as int) else DigitsValue(d))
  {
    if AreDigits(Magnitude(s)) {
      AllDigits(Magnitude(s));
    }
  }

  method SkipSpaces(s: seq<byte>) returns (p: nat)
    ensures p <= |s| && s[p..] == DropSpaces(s)
  {
    p := 0;
    assert s[0..] == s;
    while p < |s| && IsSpace(s[p])
      invariant p <= |s| && DropSpaces(s) == DropSpaces(s[p..])
    {
      assert s[p..][1..] == s[p + 1..];
      p := p + 1;
    }
  }

  /** What the digits read so far say: any is 0 for none, 1 for the number acc, -1 for one that is
      too large. */
  ghost predicate Accumulated(d: seq<byte>, neg: bool, any: int, acc: nat) {
    && AreDigits(d)
    && any == (if d == [] then 0 else if DigitsValue(d) > Limit(neg) then -1 else 1)
    && (any == 0 ==> acc == 0) && (any == 1 ==> acc == DigitsValue(d))
  }

  lemma AccumulateDigit(d: seq<byte>, neg: bool, any: int, acc: nat, c: byte)
    requires Accumulated(d, neg, any, acc) && IsDigit(c)
    ensures var cutoff, cutlim, digit := Limit(neg) / 10, Limit(neg) % 10, c - ZERO;
            if any < 0 || acc > cutoff || (acc == cutoff && digit > cutlim) then Accumulated(d + [c], neg, -1, acc)
            else Accumulated(d + [c], neg, 1, acc * 10 + digit)
  {
    assert (d + [c])[..|d|] == d;
    if d == [] {
      assert DigitsValue(d) == 0;
    }
  }

  lemma NothingAccumulated(neg: bool)
    ensures Accumulated([], neg, 0, 0)
  {}

  lemma {:induction false} RunEnds(s: seq<byte>, k: nat)
    requires k <= |s| && (forall i | 0 <= i < k :: IsDigit(s[i])) && (k < |s| ==> !IsDigit(s[k]))
    ensures DigitRun(s) == s[..k]
    decreases k
  {
    if k > 0 {
      RunEnds(s[1..], k - 1);
    }
  }

  /** strtoll in base 10. acc never leaves 64 bits, for the test comes before the step. */
  method Strtoll(s: seq<byte>) returns (result: int, end: nat, errno: int)
    ensures var d := DigitRun(Magnitude(s));
            && errno == (if d == [] then -2 else if DigitsValue(d) > Limit(Negative(s)) then -1 else 0)
            && (errno == 0 ==> result == if Negative(s) then -(DigitsValue(d) as int) else DigitsValue(d))
            && (errno == -1 ==> result == if Negative(s) then LLONG_MIN else LLONG_MAX)
            && end == if d == [] then 0 else |s| - |Magnitude(s)| + |d|
  {
    hide DropSpaces, DigitsValue, DigitRun;
    var p := SkipSpaces(s);
    var neg := false;
    if p < |s| && s[p] == MINUS {
      neg := true;
      p := p + 1;
    } else if p < |s| && s[p] == PLUS {
      p := p + 1;
    }
    ghost var start := p;
    assert s[p..] == Magnitude(s) && neg == Negative(s);
    var any, acc: nat, last := ScanDigits(s, p, neg);
    if any < 0 {
      return if neg then LLONG_MIN else LLONG_MAX, last, -1;
    } else if any == 0 {
      return acc, 0, -2;
    } else if neg {
      return -(acc as int), last, 0;
    }
    return acc, last, 0;
  }

  method ScanDigits(s: seq<byte>, start: nat, neg: bool) returns (any: int, acc: nat, end: nat)
    requires start <= |s|
    ensures Accumulated(DigitRun(s[start..]), neg, any, acc) && end == start + |DigitRun(s[start..])|
  {
    hide DigitsValue, Accumulated, DigitRun, Limit;
    var cutoff, cutlim := Limit(neg) / 10, Limit(neg) % 10;
    any, acc, end := 0, 0, start;
    NothingAccumulated(neg);
    assert s[start..end] == [];
    while end < |s| && IsDigit(s[end])
      invariant start <= end <= |s| && Accumulated(s[start..end], neg, any, acc)
      invariant forall k | start <= k < end :: IsDigit(s[k])
    {
      var c := s[end] - ZERO;
      AccumulateDigit(s[start..end], neg, any, acc, s[end]);
      assert s[start..end + 1] == s[start..end] + [s[end]];
      if any < 0 || acc > cutoff || (acc == cutoff && c > cutlim) {
        any := -1;
      } else {
        any := 1;
        acc := acc * 10 + c;
      }
      end := end + 1;
    }
    RunEnds(s[start..], end - start);
    assert s[start..][..end - start] == s[start..end];
  }

  /** opdi_str_to_int64: fails exactly for what is no number, or no number of 64 bits. */
  method ParseInt64(str: seq<byte>) returns (status: Status, result: int)
    ensures StrToInt64(str) == if status == OK then Some(result) else None
    ensures status in {OK, ERROR_CONVERSION}
  {
    hide DigitRun, DigitsValue, Magnitude, Negative, Number;
    NumberIffAllDigits(str);
    MagnitudeIsShorter(str);
    var p, error;
    result, p, error := Strtoll(str);
    if error != 0 || p < |str| || p == 0 {
      return ERROR_CONVERSION, result;
    }
    return OK, result;
  }
}
