/** Arithmetic of GF(2^8) modulo x^8 + x^4 + x^3 + x + 1, and columns of four bytes
    packed into a 32-bit word the way the cipher packs them (first byte most significant).
    Only multiplications by the constants of the cipher are needed; each is a sum of
    repeated doublings. */
module Gf256 {

  /** Addition of the field is exclusive-or, on bytes and on whole columns. */
  function Add(a: bv8, b: bv8): bv8 { a ^ b }
  function AddW(v: bv32, w: bv32): bv32 { v ^ w }
  function Add4(a: bv8, b: bv8, c: bv8, d: bv8): bv8 { Add(Add(a, b), Add(c, d)) }

  /** Multiplication by x. */
  function Xtime(a: bv8): bv8 {
    (a << 1) ^ (if a & 0x80 != 0 then 0x1b else 0)
  }

  function Times3(a: bv8): bv8 { Add(Xtime(a), a) }
  function Times9(a: bv8): bv8 { Add(Xtime(Xtime(Xtime(a))), a) }
  function Times11(a: bv8): bv8 { Add(Xtime(Xtime(Xtime(a))), Times3(a)) }
  function Times13(a: bv8): bv8 { Add(Xtime(Xtime(Times3(a))), a) }
  function Times14(a: bv8): bv8 { Xtime(Add(Xtime(Times3(a)), a)) }

  lemma XtimeLinear(a: bv8, b: bv8)
    ensures Xtime(Add(a, b)) == Add(Xtime(a), Xtime(b))
  {
    if a & 0x80 != 0 {
      if b & 0x80 != 0 {
      } else {
      }
    } else {
      if b & 0x80 != 0 {
      } else {
      }
    }
  }

  /** Exchange law for the sum of two sums. The inner sums are named by parameters of a
      lemma of their own: the solver then meets one exclusive-or at a time. */
  lemma Exchange(a0: bv8, a1: bv8, b0: bv8, b1: bv8)
    ensures Add(Add(a0, a1), Add(b0, b1)) == Add(Add(a0, b0), Add(a1, b1))
  {
    hide Add;
    ExchangeNamed(a0, a1, b0, b1, Add(a0, a1), Add(b0, b1), Add(a0, b0), Add(a1, b1));
  }

  lemma ExchangeNamed(a0: bv8, a1: bv8, b0: bv8, b1: bv8, a: bv8, b: bv8, c: bv8, d: bv8)
    requires a == Add(a0, a1) && b == Add(b0, b1) && c == Add(a0, b0) && d == Add(a1, b1)
    ensures Add(a, b) == Add(c, d)
  {}

  lemma TimesLinear(a: bv8, b: bv8)
    ensures Times3(Add(a, b)) == Add(Times3(a), Times3(b))
    ensures Times9(Add(a, b)) == Add(Times9(a), Times9(b))
    ensures Times11(Add(a, b)) == Add(Times11(a), Times11(b))
    ensures Times13(Add(a, b)) == Add(Times13(a), Times13(b))
    ensures Times14(Add(a, b)) == Add(Times14(a), Times14(b))
  {
    hide Xtime, Add;
    var a1, b1 := Xtime(a), Xtime(b);
    var a2, b2 := Xtime(a1), Xtime(b1);
    var a3, b3 := Xtime(a2), Xtime(b2);
    var at, bt := Times3(a), Times3(b);
    XtimeLinear(a, b);
    XtimeLinear(a1, b1);
    XtimeLinear(a2, b2);
    Exchange(a1, b1, a, b);
    Exchange(a3, b3, a, b);
    Exchange(a3, b3, at, bt);
    XtimeLinear(at, bt);
    XtimeLinear(Xtime(at), Xtime(bt));
    Exchange(Xtime(Xtime(at)), Xtime(Xtime(bt)), a, b);
    Exchange(Xtime(at), Xtime(bt), a, b);
    XtimeLinear(Add(Xtime(at), a), Add(Xtime(bt), b));
  }

  /** One row of the MixColumns matrix, and of its inverse. */
  function Row(a: bv8, b: bv8, c: bv8, d: bv8): bv8 { Add4(Xtime(a), Times3(b), c, d) }
  function InvRow(a: bv8, b: bv8, c: bv8, d: bv8): bv8 { Add4(Times14(a), Times11(b), Times13(c), Times9(d)) }

  lemma InvRowLinear(a0: bv8, a1: bv8, b0: bv8, b1: bv8, c0: bv8, c1: bv8, d0: bv8, d1: bv8)
    ensures InvRow(Add(a0, a1), Add(b0, b1), Add(c0, c1), Add(d0, d1))
         == Add(InvRow(a0, b0, c0, d0), InvRow(a1, b1, c1, d1))
  {
    hide Add, Times14, Times11, Times13, Times9;
    TimesLinear(a0, a1);
    TimesLinear(b0, b1);
    TimesLinear(c0, c1);
    TimesLinear(d0, d1);
    Exchange(Times14(a0), Times14(a1), Times11(b0), Times11(b1));
    Exchange(Times13(c0), Times13(c1), Times9(d0), Times9(d1));
    Exchange(Add(Times14(a0), Times11(b0)), Add(Times14(a1), Times11(b1)),
             Add(Times13(c0), Times9(d0)), Add(Times13(c1), Times9(d1)));
  }

  /** Two neighbouring powers of x summed: pij = ai + aj, where ai stands for a times x^i. */
  ghost predicate PairSums(a: bv8, a1: bv8, a2: bv8, a3: bv8, a4: bv8, p43: bv8, p32: bv8, p21: bv8, p10: bv8)
  {
    p43 == Add(a4, a3) && p32 == Add(a3, a2) && p21 == Add(a2, a1) && p10 == Add(a1, a)
  }

  /** The four products that meet in one entry when InvMixColumns multiplies MixColumns, over
      formal powers of x: every column of the matrix product is a unit vector. */
  lemma Entry0(a: bv8, a1: bv8, a2: bv8, a3: bv8, a4: bv8, p43: bv8, p32: bv8, p21: bv8, p10: bv8,
               s: bv8, t: bv8, u: bv8, v: bv8)
    requires PairSums(a, a1, a2, a3, a4, p43, p32, p21, p10)
    requires s == Add(p43, a2) && t == Add(a3, p10) && u == Add(p32, a) && v == Add(p43, p10)
    ensures Add4(s, t, u, v) == a
  {}

  lemma Entry1(a: bv8, a1: bv8, a2: bv8, a3: bv8, a4: bv8, p43: bv8, p32: bv8, p21: bv8, p10: bv8,
               q: bv8, s: bv8, t: bv8, u: bv8, v: bv8)
    requires PairSums(a, a1, a2, a3, a4, p43, p32, p21, p10)
    requires q == Add(p43, p32) && s == Add(q, p21) && t == Add(a4, p21) && u == Add(p32, a) && v == Add(a3, a)
    ensures Add4(s, t, u, v) == 0
  {}

  lemma Entry2(a: bv8, a1: bv8, a2: bv8, a3: bv8, a4: bv8, p43: bv8, p32: bv8, p21: bv8, p10: bv8,
               q: bv8, s: bv8, t: bv8, u: bv8, v: bv8)
    requires PairSums(a, a1, a2, a3, a4, p43, p32, p21, p10)
    requires q == Add(p21, p10) && s == Add(p32, a1) && t == Add(p43, q) && u == Add(p43, a1) && v == Add(a3, a)
    ensures Add4(s, t, u, v) == 0
  {}

  lemma Entry3(a: bv8, a1: bv8, a2: bv8, a3: bv8, a4: bv8, p43: bv8, p32: bv8, p21: bv8, p10: bv8,
               q: bv8, s: bv8, t: bv8, u: bv8, v: bv8)
    requires PairSums(a, a1, a2, a3, a4, p43, p32, p21, p10)
    requires q == Add(p43, p32) && s == Add(p32, a1) && t == Add(a3, p10) && u == Add(q, p10) && v == Add(a4, a1)
    ensures Add4(s, t, u, v) == 0
  {}

  /** Doubling shifts the powers by one. */
  lemma ShiftedSums(a: bv8, a1: bv8, a2: bv8, a3: bv8, a4: bv8, p43: bv8, p32: bv8, p21: bv8, p10: bv8)
    requires a1 == Xtime(a) && a2 == Xtime(a1) && a3 == Xtime(a2) && a4 == Xtime(a3)
    requires PairSums(a, a1, a2, a3, a4, p43, p32, p21, p10)
    ensures Times3(a) == p10 && Xtime(p10) == p21 && Xtime(p21) == p32 && Xtime(p32) == p43
    ensures Times3(a1) == p21 && Times3(p10) == Add(p21, p10)
  {
    hide Xtime, Add;
    XtimeLinear(a1, a);
    XtimeLinear(a2, a1);
    XtimeLinear(a3, a2);
  }

  lemma Times14OfPowers(a: bv8, a1: bv8, a2: bv8, a3: bv8, a4: bv8, p43: bv8, p32: bv8, p21: bv8, p10: bv8)
    requires a1 == Xtime(a) && a2 == Xtime(a1) && a3 == Xtime(a2) && a4 == Xtime(a3)
    requires PairSums(a, a1, a2, a3, a4, p43, p32, p21, p10)
    ensures Times14(a1) == Add(p43, a2)
    ensures Times14(Times3(a)) == Add(Add(p43, p32), p21)
    ensures Times14(a) == Add(p32, a1)
  {
    hide Xtime, Add, Times3;
    ShiftedSums(a, a1, a2, a3, a4, p43, p32, p21, p10);
    XtimeLinear(p32, a1);
    XtimeLinear(p21, p10);
    XtimeLinear(Add(p32, p21), p10);
    XtimeLinear(p32, p21);
    XtimeLinear(p21, a);
  }

  lemma Times13OfPowers(a: bv8, a1: bv8, a2: bv8, a3: bv8, a4: bv8, p43: bv8, p32: bv8, p21: bv8, p10: bv8)
    requires a1 == Xtime(a) && a2 == Xtime(a1) && a3 == Xtime(a2) && a4 == Xtime(a3)
    requires PairSums(a, a1, a2, a3, a4, p43, p32, p21, p10)
    ensures Times13(a) == Add(p32, a) && Times13(a1) == Add(p43, a1)
    ensures Times13(Times3(a)) == Add(Add(p43, p32), p10)
  {
    hide Xtime, Add, Times3;
    ShiftedSums(a, a1, a2, a3, a4, p43, p32, p21, p10);
    XtimeLinear(p21, p10);
    XtimeLinear(p32, p21);
  }

  lemma Times11And9OfPowers(a: bv8, a1: bv8, a2: bv8, a3: bv8, a4: bv8, p43: bv8, p32: bv8, p21: bv8, p10: bv8)
    requires a1 == Xtime(a) && a2 == Xtime(a1) && a3 == Xtime(a2) && a4 == Xtime(a3)
    requires PairSums(a, a1, a2, a3, a4, p43, p32, p21, p10)
    ensures Times11(a) == Add(a3, p10) && Times11(a1) == Add(a4, p21)
    ensures Times11(Times3(a)) == Add(p43, Add(p21, p10))
    ensures Times9(a) == Add(a3, a) && Times9(a1) == Add(a4, a1) && Times9(Times3(a)) == Add(p43, p10)
  {
    hide Xtime, Add, Times3;
    ShiftedSums(a, a1, a2, a3, a4, p43, p32, p21, p10);
  }

  lemma ColumnOfProduct(a: bv8)
    ensures InvRow(Xtime(a), a, a, Times3(a)) == a
    ensures InvRow(Times3(a), Xtime(a), a, a) == 0
    ensures InvRow(a, Times3(a), Xtime(a), a) == 0
    ensures InvRow(a, a, Times3(a), Xtime(a)) == 0
  {
    hide Xtime, Add, Add4, Times3, Times9, Times11, Times13, Times14;
    var a1 := Xtime(a);
    var a2 := Xtime(a1);
    var a3 := Xtime(a2);
    var a4 := Xtime(a3);
    var p43, p32, p21, p10 := Add(a4, a3), Add(a3, a2), Add(a2, a1), Add(a1, a);
    Times14OfPowers(a, a1, a2, a3, a4, p43, p32, p21, p10);
    Times13OfPowers(a, a1, a2, a3, a4, p43, p32, p21, p10);
    Times11And9OfPowers(a, a1, a2, a3, a4, p43, p32, p21, p10);
    Entry0(a, a1, a2, a3, a4, p43, p32, p21, p10, Add(p43, a2), Add(a3, p10), Add(p32, a), Add(p43, p10));
    Entry1(a, a1, a2, a3, a4, p43, p32, p21, p10, Add(p43, p32), Add(Add(p43, p32), p21), Add(a4, p21), Add(p32, a), Add(a3, a));
    Entry2(a, a1, a2, a3, a4, p43, p32, p21, p10, Add(p21, p10), Add(p32, a1), Add(p43, Add(p21, p10)), Add(p43, a1), Add(a3, a));
    Entry3(a, a1, a2, a3, a4, p43, p32, p21, p10, Add(p43, p32), Add(p32, a1), Add(a3, p10), Add(Add(p43, p32), p10), Add(a4, a1));
  }

  lemma RowsRegrouped(a: bv8, a2: bv8, a3: bv8, b: bv8, b2: bv8, b3: bv8,
                      c: bv8, c2: bv8, c3: bv8, d: bv8, d2: bv8, d3: bv8)
    ensures Add4(a2, b3, c, d) == Add(Add(a2, b3), Add(c, d))
    ensures Add4(b2, c3, d, a) == Add(Add(a, b2), Add(c3, d))
    ensures Add4(c2, d3, a, b) == Add(Add(a, b), Add(c2, d3))
    ensures Add4(d2, a3, b, c) == Add(Add(a3, b), Add(c, d2))
    ensures Add(Add(a, 0), Add(0, 0)) == a
  {}

  lemma InvRowOfRows(a: bv8, b: bv8, c: bv8, d: bv8)
    ensures InvRow(Row(a, b, c, d), Row(b, c, d, a), Row(c, d, a, b), Row(d, a, b, c)) == a
  {
    hide InvRow, Xtime, Times3, Add, Add4;
    ColumnOfProduct(a);
    ColumnOfProduct(b);
    ColumnOfProduct(c);
    ColumnOfProduct(d);
    var a2, a3, b2, b3 := Xtime(a), Times3(a), Xtime(b), Times3(b);
    var c2, c3, d2, d3 := Xtime(c), Times3(c), Xtime(d), Times3(d);
    RowsRegrouped(a, a2, a3, b, b2, b3, c, c2, c3, d, d2, d3);
    InvRowLinear(a2, b3, a, b2, a, b, a3, b);
    InvRowLinear(c, d, c3, d, c2, d3, c, d2);
    InvRowLinear(Add(a2, b3), Add(c, d), Add(a, b2), Add(c3, d), Add(a, b), Add(c2, d3), Add(a3, b), Add(c, d2));
  }

  // ---------------------------------------------------------------- columns

  function Pack(a: bv8, b: bv8, c: bv8, d: bv8): bv32 {
    (a as bv32 << 24) | (b as bv32 << 16) | (c as bv32 << 8) | (d as bv32)
  }

  function B0(w: bv32): bv8 { ((w >> 24) & 0xFF) as bv8 }
  function B1(w: bv32): bv8 { ((w >> 16) & 0xFF) as bv8 }
  function B2(w: bv32): bv8 { ((w >> 8) & 0xFF) as bv8 }
  function B3(w: bv32): bv8 { (w & 0xFF) as bv8 }

  lemma BytesOfPack(a: bv8, b: bv8, c: bv8, d: bv8)
    ensures B0(Pack(a, b, c, d)) == a && B1(Pack(a, b, c, d)) == b
    ensures B2(Pack(a, b, c, d)) == c && B3(Pack(a, b, c, d)) == d
  {}

  lemma PackOfBytes(w: bv32)
    ensures Pack(B0(w), B1(w), B2(w), B3(w)) == w
  {}

  lemma BytesOfAdd(v: bv32, w: bv32)
    ensures B0(AddW(v, w)) == Add(B0(v), B0(w)) && B1(AddW(v, w)) == Add(B1(v), B1(w))
    ensures B2(AddW(v, w)) == Add(B2(v), B2(w)) && B3(AddW(v, w)) == Add(B3(v), B3(w))
  {
    hide B0, B1, B2, B3;
    BytesOfXor(v, w);
  }

  lemma BytesOfXor(v: bv32, w: bv32)
    ensures B0(v ^ w) == B0(v) ^ B0(w) && B1(v ^ w) == B1(v) ^ B1(w)
    ensures B2(v ^ w) == B2(v) ^ B2(w) && B3(v ^ w) == B3(v) ^ B3(w)
  {}

  lemma AddOfPacks(a0: bv8, b0: bv8, c0: bv8, d0: bv8, a1: bv8, b1: bv8, c1: bv8, d1: bv8)
    ensures AddW(Pack(a0, b0, c0, d0), Pack(a1, b1, c1, d1)) == Pack(Add(a0, a1), Add(b0, b1), Add(c0, c1), Add(d0, d1))
  {
    hide Add, AddW, Pack, B0, B1, B2, B3;
    var v, w := Pack(a0, b0, c0, d0), Pack(a1, b1, c1, d1);
    BytesOfPack(a0, b0, c0, d0);
    BytesOfPack(a1, b1, c1, d1);
    BytesOfAdd(v, w);
    PackOfBytes(AddW(v, w));
  }

  function MixColumn(w: bv32): bv32 {
    var a, b, c, d := B0(w), B1(w), B2(w), B3(w);
    Pack(Row(a, b, c, d), Row(b, c, d, a), Row(c, d, a, b), Row(d, a, b, c))
  }

  function InvMixColumn(w: bv32): bv32 {
    var a, b, c, d := B0(w), B1(w), B2(w), B3(w);
    Pack(InvRow(a, b, c, d), InvRow(b, c, d, a), InvRow(c, d, a, b), InvRow(d, a, b, c))
  }

  lemma InvMixColumnInverts(w: bv32)
    ensures InvMixColumn(MixColumn(w)) == w
  {
    hide Row, InvRow, Pack, B0, B1, B2, B3;
    var a, b, c, d := B0(w), B1(w), B2(w), B3(w);
    BytesOfPack(Row(a, b, c, d), Row(b, c, d, a), Row(c, d, a, b), Row(d, a, b, c));
    InvRowOfRows(a, b, c, d);
    InvRowOfRows(b, c, d, a);
    InvRowOfRows(c, d, a, b);
    InvRowOfRows(d, a, b, c);
    PackOfBytes(w);
  }

  lemma InvMixColumnLinear(v: bv32, w: bv32)
    ensures InvMixColumn(AddW(v, w)) == AddW(InvMixColumn(v), InvMixColumn(w))
  {
    hide Add, AddW, InvRow, Pack, B0, B1, B2, B3;
    var a, b, c, d := B0(v), B1(v), B2(v), B3(v);
    var e, f, g, h := B0(w), B1(w), B2(w), B3(w);
    BytesOfAdd(v, w);
    InvRowLinear(a, e, b, f, c, g, d, h);
    InvRowLinear(b, f, c, g, d, h, a, e);
    InvRowLinear(c, g, d, h, a, e, b, f);
    InvRowLinear(d, h, a, e, b, f, c, g);
    AddOfPacks(InvRow(a, b, c, d), InvRow(b, c, d, a), InvRow(c, d, a, b), InvRow(d, a, b, c),
               InvRow(e, f, g, h), InvRow(f, g, h, e), InvRow(g, h, e, f), InvRow(h, e, f, g));
  }
}
