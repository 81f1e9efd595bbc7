/** Numbers as text: decimal with a sign, and four hexadecimal digits. */
module Numbers {
  import opened Constants
  import opened Strings

  const ZERO: byte := 48
  const MINUS: byte := 45
  const PLUS: byte := 43

  /** The decimal digits of n. */
  function Decimal(n: nat): (s: seq<byte>)
    ensures s != []
  {
    if n < 10 then [ZERO + n] else Decimal(n / 10) + [ZERO + n % 10]
  }

  /** An integer in decimal, with a sign if it is negative. */
  function Signed(n: int): (s: seq<byte>)
    ensures s != []
  {
    if n < 0 then [MINUS] + Decimal(-n) else Decimal(n)
  }

  predicate IsDigit(b: byte) { ZERO <= b <= 57 }

  /** The number a string of digits stands for. */
  function DigitsValue(s: seq<byte>): nat
    requires AreDigits(s)
  {
    if s == [] then 0
    else
      assert IsDigit(s[|s| - 1]);
      10 * DigitsValue(s[..|s| - 1]) + (s[|s| - 1] - ZERO)
  }

  lemma {:induction false} DecimalIsRead(n: nat)
    ensures AreDigits(Decimal(n))
    ensures DigitsValue(Decimal(n)) == n
  {
    if n >= 10 {
      DecimalIsRead(n / 10);
      assert Decimal(n)[..|Decimal(n)| - 1] == Decimal(n / 10);
    } else {
      assert Decimal(n)[..0] == [];
    }
  }

  lemma DecimalLength(n: nat)
    ensures n < 10 ==> |Decimal(n)| == 1
    ensures 10 <= n < 100 ==> |Decimal(n)| == 2
    ensures 100 <= n < 1000 ==> |Decimal(n)| == 3
  {
    if 10 <= n < 100 {
      assert |Decimal(n / 10)| == 1;
    } else if 100 <= n < 1000 {
      assert n / 10 >= 10 && n / 10 / 10 < 10;
      assert |Decimal(n / 10 / 10)| == 1;
      assert |Decimal(n / 10)| == 2;
    }
  }

  function DropSpaces(s: seq<byte>): seq<byte> {
    if s != [] && IsSpace(s[0]) then DropSpaces(s[1..]) else s
  }

  /** What stands behind the whitespace and the sign. */
  function Magnitude(s: seq<byte>): seq<byte> {
    var t := DropSpaces(s);
    if t != [] && (t[0] == MINUS || t[0] == PLUS) then t[1..] else t
  }

  predicate Negative(s: seq<byte>) { DropSpaces(s) != [] && DropSpaces(s)[0] == MINUS }

  predicate AreDigits(s: seq<byte>) { forall i | 0 <= i < |s| :: IsDigit(s[i]) }

  /** The integer a text stands for: whitespace, a sign that may be missing, and digits to its end. */
  function Number(s: seq<byte>): Option<int> {
    var d := Magnitude(s);
    if d == [] || !AreDigits(d) then None
    else
      var v: int := DigitsValue(d);
      Some(if Negative(s) then -v else v)
  }

  lemma NumberOfSigned(n: int)
    ensures Number(Signed(n)) == Some(n)
  {
    var d := Decimal(if n < 0 then -n else n);
    DecimalIsRead(if n < 0 then -n else n);
    assert IsDigit(d[0]);
    assert ([MINUS] + d)[1..] == d;
  }

  predicate Spaces(s: seq<byte>) { forall i | 0 <= i < |s| :: IsSpace(s[i]) }

  predicate Sign(s: seq<byte>) { s == [] || s == [MINUS] || s == [PLUS] }

  lemma {:induction false} SpacesDropped(spaces: seq<byte>, rest: seq<byte>)
    requires Spaces(spaces) && (rest == [] || !IsSpace(rest[0]))
    ensures DropSpaces(spaces + rest) == rest
    decreases |spaces|
  {
    if spaces == [] {
      assert spaces + rest == rest;
    } else {
      assert (spaces + rest)[1..] == spaces[1..] + rest;
      SpacesDropped(spaces[1..], rest);
    }
  }

  /** Whitespace, a sign and something that starts with a digit. */
  lemma MagnitudeBehindSign(spaces: seq<byte>, sign: seq<byte>, rest: seq<byte>)
    requires Spaces(spaces) && Sign(sign) && rest != [] && IsDigit(rest[0])
    ensures Magnitude(spaces + sign + rest) == rest && (Negative(spaces + sign + rest) <==> sign == [MINUS])
  {
    assert spaces + sign + rest == spaces + (sign + rest);
    assert sign != [] ==> (sign + rest)[0] == sign[0] && (sign + rest)[1..] == rest;
    assert sign == [] ==> sign + rest == rest;
    SpacesDropped(spaces, sign + rest);
  }

  /** The texts that are numbers: whitespace, a sign or none, and digits to the end, at least one. */
  lemma NumberOfText(spaces: seq<byte>, sign: seq<byte>, digits: seq<byte>)
    requires Spaces(spaces) && Sign(sign) && AreDigits(digits) && digits != []
    ensures var v: int := DigitsValue(digits);
            Number(spaces + sign + digits) == Some(if sign == [MINUS] then -v else v)
  {
    hide DigitsValue;
    assert IsDigit(digits[0]);
    MagnitudeBehindSign(spaces, sign, digits);
  }

  lemma {:induction false} SpacesInFront(s: seq<byte>) returns (spaces: seq<byte>)
    ensures Spaces(spaces) && s == spaces + DropSpaces(s)
    decreases |s|
  {
    if s != [] && IsSpace(s[0]) {
      var more := SpacesInFront(s[1..]);
      spaces := [s[0]] + more;
      assert s == [s[0]] + s[1..];
    } else {
      spaces := [];
      assert s == [] + DropSpaces(s);
    }
  }

  /** And no others. */
  lemma NumberIsText(s: seq<byte>) returns (spaces: seq<byte>, sign: seq<byte>, digits: seq<byte>)
    requires Number(s).Some?
    ensures Spaces(spaces) && Sign(sign) && AreDigits(digits) && digits != [] && s == spaces + sign + digits
  {
    spaces := SpacesInFront(s);
    digits := Magnitude(s);
    var t := DropSpaces(s);
    sign := t[..|t| - |digits|];
    assert t == sign + digits;
  }

  /** opdi_str_to_uint16 of a text too short to overflow: its number, cut to 16 bits. */
  function StrToUint16(s: seq<byte>): Option<nat> {
    var n := Number(s);
    if n.Some? then Some(n.value % 0x1_0000) else None
  }

  lemma StrToUint16OfDecimal(n: nat)
    requires n < 0x1_0000
    ensures StrToUint16(Decimal(n)) == Some(n)
  {
    hide Number;
    NumberOfSigned(n);
  }

  /** How many digits a text starts with. */
  function DigitCount(s: seq<byte>): (n: nat)
    ensures n <= |s| && AreDigits(s[..n])
  {
    if s == [] || !IsDigit(s[0]) then 0
    else
      assert s[..1 + DigitCount(s[1..])] == [s[0]] + s[1..][..DigitCount(s[1..])];
      1 + DigitCount(s[1..])
  }

  /** std::stoi: the number a text starts with, whatever follows it; None stands for its
      exceptions. */
  function Stoi(s: seq<byte>): Option<int> {
    var d := Magnitude(s);
    var n := DigitCount(d);
    if n == 0 then None
    else
      var v: int := DigitsValue(d[..n]);
      var signed := if Negative(s) then -v else v;
      if -0x8000_0000 <= signed < 0x8000_0000 then Some(signed) else None
  }

  /** So does stoi, but it takes the digits up to the first byte that is none, and only numbers of 32
      bits. */
  lemma StoiOfText(spaces: seq<byte>, sign: seq<byte>, digits: seq<byte>, t: seq<byte>)
    requires Spaces(spaces) && Sign(sign) && AreDigits(digits) && digits != [] && (t == [] || !IsDigit(t[0]))
    ensures var v: int := DigitsValue(digits);
            var n := if sign == [MINUS] then -v else v;
            Stoi(spaces + sign + (digits + t)) == if -0x8000_0000 <= n < 0x8000_0000 then Some(n) else None
  {
    hide DigitsValue, DigitCount;
    assert IsDigit(digits[0]) && (digits + t)[0] == digits[0] && (digits + t)[..|digits|] == digits;
    MagnitudeBehindSign(spaces, sign, digits + t);
    DigitsCounted(digits, t);
  }

  lemma {:induction false} DigitsCounted(d: seq<byte>, t: seq<byte>)
    requires AreDigits(d) && (t == [] || !IsDigit(t[0]))
    ensures DigitCount(d + t) == |d|
    decreases |d|
  {
    if d == [] {
      assert d + t == t;
    } else {
      assert IsDigit(d[0]) && (d + t)[1..] == d[1..] + t;
      DigitsCounted(d[1..], t);
    }
  }

  /** stoi reads the digits of a number up to the first byte that is none. */
  lemma StoiOfDecimal(n: nat, t: seq<byte>)
    requires n < 0x8000_0000 && (t == [] || !IsDigit(t[0]))
    ensures Stoi(Decimal(n) + t) == Some(n)
  {
    hide Decimal, DigitsValue, DigitCount;
    var d := Decimal(n);
    DecimalIsRead(n);
    DigitsCounted(d, t);
    assert IsDigit(d[0]) && (d + t)[0] == d[0] && (d + t)[..|d|] == d;
    assert DropSpaces(d + t) == d + t;
  }

  /** The value of a hexadecimal digit, in either case. */
  function HexValue(b: byte): Option<nat> {
    if IsDigit(b) then Some(b - ZERO)
    else if 65 <= b <= 70 then Some(b - 65 + 10)
    else if 97 <= b <= 102 then Some(b - 97 + 10)
    else None
  }

  function HexDigit(n: nat): byte
    requires n < 16
  {
    if n >= 10 then 97 + n - 10 else ZERO + n
  }

  function Hex4(v: nat): (h: seq<byte>)
    requires v < 0x1_0000
    ensures |h| == 4
  {
    [HexDigit(v / 0x1000), HexDigit(v / 0x100 % 16), HexDigit(v / 0x10 % 16), HexDigit(v % 16)]
  }

  function Hex4Value(h: seq<byte>): Option<nat>
    requires |h| == 4
  {
    var a, b, c, d := HexValue(h[0]), HexValue(h[1]), HexValue(h[2]), HexValue(h[3]);
    if a.Some? && b.Some? && c.Some? && d.Some?
    then Some(0x1000 * a.value + 0x100 * b.value + 0x10 * c.value + d.value) else None
  }

  lemma HexDigitIsRead(n: nat)
    requires n < 16
    ensures HexValue(HexDigit(n)) == Some(n)
    ensures HexDigit(n) != SEPARATOR && HexDigit(n) != NUL && HexDigit(n) != TERMINATOR
  {}

  lemma FourDigits(v: nat)
    requires v < 0x1_0000
    ensures v / 0x1000 < 16 && v == 0x1000 * (v / 0x1000) + 0x100 * (v / 0x100 % 16) + 0x10 * (v / 0x10 % 16) + v % 16
  {
    DivideTwice(v);
    DivideTwice(v / 0x10);
    var a := v / 0x10;
    var b := a / 0x10;
    var c := b / 0x10;
    assert a % 16 == a - 0x10 * b && b % 16 == b - 0x10 * c;
  }

  lemma DivideTwice(v: nat)
    ensures v / 0x10 / 0x10 == v / 0x100 && v / 0x100 / 0x10 == v / 0x1000
  {}

  lemma Hex4RoundTrip(v: nat)
    requires v < 0x1_0000
    ensures Hex4Value(Hex4(v)) == Some(v)
    ensures SEPARATOR !in Hex4(v) && NUL !in Hex4(v) && TERMINATOR !in Hex4(v)
  {
    hide HexValue, HexDigit;
    FourDigits(v);
    HexDigitIsRead(v / 0x1000);
    HexDigitIsRead(v / 0x100 % 16);
    HexDigitIsRead(v / 0x10 % 16);
    HexDigitIsRead(v % 16);
  }
}
