/** The substitution tables of the cipher, and the tables that fold substitution and column
    mixing into one lookup. Only the two substitution tables are data; the twelve folded ones
    are given by the products they hold. */
module RijndaelTables {
  import opened Gf256

  /** Entry i & 15 of a table row. */
  function Pick(i: bv8, v0: bv8, v1: bv8, v2: bv8, v3: bv8, v4: bv8, v5: bv8, v6: bv8, v7: bv8,
                v8: bv8, v9: bv8, v10: bv8, v11: bv8, v12: bv8, v13: bv8, v14: bv8, v15: bv8): bv8 {
    if i < 8 then
      if i < 4 then
        if i < 2 then (if i < 1 then v0 else v1) else (if i < 3 then v2 else v3)
      else
        if i < 6 then (if i < 5 then v4 else v5) else (if i < 7 then v6 else v7)
    else
      if i < 12 then
        if i < 10 then (if i < 9 then v8 else v9) else (if i < 11 then v10 else v11)
      else
        if i < 14 then (if i < 13 then v12 else v13) else (if i < 15 then v14 else v15)
  }

  function S(x: bv8): bv8 {
    var i := x & 0x0f;
    if x < 0x10 then Pick(i, 99, 124, 119, 123, 242, 107, 111, 197, 48, 1, 103, 43, 254, 215, 171, 118)
    else if x < 0x20 then Pick(i, 202, 130, 201, 125, 250, 89, 71, 240, 173, 212, 162, 175, 156, 164, 114, 192)
    else if x < 0x30 then Pick(i, 183, 253, 147, 38, 54, 63, 247, 204, 52, 165, 229, 241, 113, 216, 49, 21)
    else if x < 0x40 then Pick(i, 4, 199, 35, 195, 24, 150, 5, 154, 7, 18, 128, 226, 235, 39, 178, 117)
    else if x < 0x50 then Pick(i, 9, 131, 44, 26, 27, 110, 90, 160, 82, 59, 214, 179, 41, 227, 47, 132)
    else if x < 0x60 then Pick(i, 83, 209, 0, 237, 32, 252, 177, 91, 106, 203, 190, 57, 74, 76, 88, 207)
    else if x < 0x70 then Pick(i, 208, 239, 170, 251, 67, 77, 51, 133, 69, 249, 2, 127, 80, 60, 159, 168)
    else if x < 0x80 then Pick(i, 81, 163, 64, 143, 146, 157, 56, 245, 188, 182, 218, 33, 16, 255, 243, 210)
    else if x < 0x90 then Pick(i, 205, 12, 19, 236, 95, 151, 68, 23, 196, 167, 126, 61, 100, 93, 25, 115)
    else if x < 0xa0 then Pick(i, 96, 129, 79, 220, 34, 42, 144, 136, 70, 238, 184, 20, 222, 94, 11, 219)
    else if x < 0xb0 then Pick(i, 224, 50, 58, 10, 73, 6, 36, 92, 194, 211, 172, 98, 145, 149, 228, 121)
    else if x < 0xc0 then Pick(i, 231, 200, 55, 109, 141, 213, 78, 169, 108, 86, 244, 234, 101, 122, 174, 8)
    else if x < 0xd0 then Pick(i, 186, 120, 37, 46, 28, 166, 180, 198, 232, 221, 116, 31, 75, 189, 139, 138)
    else if x < 0xe0 then Pick(i, 112, 62, 181, 102, 72, 3, 246, 14, 97, 53, 87, 185, 134, 193, 29, 158)
    else if x < 0xf0 then Pick(i, 225, 248, 152, 17, 105, 217, 142, 148, 155, 30, 135, 233, 206, 85, 40, 223)
    else Pick(i, 140, 161, 137, 13, 191, 230, 66, 104, 65, 153, 45, 15, 176, 84, 187, 22)
  }

  function Si(x: bv8): bv8 {
    var i := x & 0x0f;
    if x < 0x10 then Pick(i, 82, 9, 106, 213, 48, 54, 165, 56, 191, 64, 163, 158, 129, 243, 215, 251)
    else if x < 0x20 then Pick(i, 124, 227, 57, 130, 155, 47, 255, 135, 52, 142, 67, 68, 196, 222, 233, 203)
    else if x < 0x30 then Pick(i, 84, 123, 148, 50, 166, 194, 35, 61, 238, 76, 149, 11, 66, 250, 195, 78)
    else if x < 0x40 then Pick(i, 8, 46, 161, 102, 40, 217, 36, 178, 118, 91, 162, 73, 109, 139, 209, 37)
    else if x < 0x50 then Pick(i, 114, 248, 246, 100, 134, 104, 152, 22, 212, 164, 92, 204, 93, 101, 182, 146)
    else if x < 0x60 then Pick(i, 108, 112, 72, 80, 253, 237, 185, 218, 94, 21, 70, 87, 167, 141, 157, 132)
    else if x < 0x70 then Pick(i, 144, 216, 171, 0, 140, 188, 211, 10, 247, 228, 88, 5, 184, 179, 69, 6)
    else if x < 0x80 then Pick(i, 208, 44, 30, 143, 202, 63, 15, 2, 193, 175, 189, 3, 1, 19, 138, 107)
    else if x < 0x90 then Pick(i, 58, 145, 17, 65, 79, 103, 220, 234, 151, 242, 207, 206, 240, 180, 230, 115)
    else if x < 0xa0 then Pick(i, 150, 172, 116, 34, 231, 173, 53, 133, 226, 249, 55, 232, 28, 117, 223, 110)
    else if x < 0xb0 then Pick(i, 71, 241, 26, 113, 29, 41, 197, 137, 111, 183, 98, 14, 170, 24, 190, 27)
    else if x < 0xc0 then Pick(i, 252, 86, 62, 75, 198, 210, 121, 32, 154, 219, 192, 254, 120, 205, 90, 244)
    else if x < 0xd0 then Pick(i, 31, 221, 168, 51, 136, 7, 199, 49, 177, 18, 16, 89, 39, 128, 236, 95)
    else if x < 0xe0 then Pick(i, 96, 81, 127, 169, 25, 181, 74, 13, 45, 229, 122, 159, 147, 201, 156, 239)
    else if x < 0xf0 then Pick(i, 160, 224, 59, 77, 174, 42, 245, 176, 200, 235, 187, 60, 131, 83, 153, 97)
    else Pick(i, 23, 43, 4, 126, 186, 119, 214, 38, 225, 105, 20, 99, 85, 33, 12, 125)
  }

  lemma FirstQuarter(x: bv8)
    requires x < 0x40
    ensures Si(S(x)) == x
  {}

  lemma SecondQuarter(x: bv8)
    requires 0x40 <= x < 0x80
    ensures Si(S(x)) == x
  {}

  lemma ThirdQuarter(x: bv8)
    requires 0x80 <= x < 0xc0
    ensures Si(S(x)) == x
  {}

  lemma FourthQuarter(x: bv8)
    requires 0xc0 <= x
    ensures Si(S(x)) == x
  {}

  /** The decryption table undoes the encryption table. */
  lemma SiInvertsS(x: bv8)
    ensures Si(S(x)) == x
  {
    hide S, Si;
    if x < 0x40 {
      FirstQuarter(x);
    } else if x < 0x80 {
      SecondQuarter(x);
    } else if x < 0xc0 {
      ThirdQuarter(x);
    } else {
      FourthQuarter(x);
    }
  }

  // ---------------------------------------------------------------- where the table comes from

  /** The product of two elements of the field. */
  function Product(a: bv8, b: bv8): bv8 {
    var a1 := Xtime(a);
    var a2 := Xtime(a1);
    var a3 := Xtime(a2);
    var a4 := Xtime(a3);
    var a5 := Xtime(a4);
    var a6 := Xtime(a5);
    var a7 := Xtime(a6);
    (if b & 1 == 1 then a else 0) ^ (if b & 2 == 2 then a1 else 0) ^ (if b & 4 == 4 then a2 else 0)
    ^ (if b & 8 == 8 then a3 else 0) ^ (if b & 16 == 16 then a4 else 0) ^ (if b & 32 == 32 then a5 else 0)
    ^ (if b & 64 == 64 then a6 else 0) ^ (if b & 128 == 128 then a7 else 0)
  }

  /** The constants of the mixing matrices, as products. */
  lemma TimesAreProducts(a: bv8)
    ensures Xtime(a) == Product(a, 2) && Times3(a) == Product(a, 3) && Times9(a) == Product(a, 9)
    ensures Times11(a) == Product(a, 11) && Times13(a) == Product(a, 13) && Times14(a) == Product(a, 14)
  {
    ProductsOfTwo(a);
    ProductsOfNine(a);
    ProductsOfThirteen(a);
    hide *;
  }

  lemma ProductsOfTwo(a: bv8)
    ensures Xtime(a) == Product(a, 2) && Times3(a) == Product(a, 3)
  {}

  lemma ProductsOfNine(a: bv8)
    ensures Times9(a) == Product(a, 9) && Times11(a) == Product(a, 11)
  {}

  lemma ProductsOfThirteen(a: bv8)
    ensures Times13(a) == Product(a, 13) && Times14(a) == Product(a, 14)
  {}

  function Rotated(a: bv8, n: nat): bv8
    requires 0 < n < 8
  {
    (a << n) | (a >> (8 - n))
  }

  /** The affine transformation of section 5.1.1 of FIPS 197, and its inverse. */
  function Affine(b: bv8): bv8 { b ^ Rotated(b, 1) ^ Rotated(b, 2) ^ Rotated(b, 3) ^ Rotated(b, 4) ^ 0x63 }
  function InvAffine(s: bv8): bv8 { Rotated(s, 1) ^ Rotated(s, 3) ^ Rotated(s, 6) ^ 0x05 }

  lemma InvAffineInverts(s: bv8)
    ensures Affine(InvAffine(s)) == s
  {}

  lemma InverseFirstQuarter(x: bv8)
    requires 0 < x < 0x40
    ensures Product(x, InvAffine(S(x))) == 1
  {}

  lemma InverseSecondQuarter(x: bv8)
    requires 0x40 <= x < 0x80
    ensures Product(x, InvAffine(S(x))) == 1
  {}

  lemma InverseThirdQuarter(x: bv8)
    requires 0x80 <= x < 0xc0
    ensures Product(x, InvAffine(S(x))) == 1
  {}

  lemma InverseFourthQuarter(x: bv8)
    requires 0xc0 <= x
    ensures Product(x, InvAffine(S(x))) == 1
  {}

  /** Every entry of the encryption table is the affine transform of the multiplicative inverse of
      its index, 0 standing for the inverse of 0 (section 5.1.1 of FIPS 197). */
  lemma SubstitutesInverse(x: bv8)
    ensures var y := InvAffine(S(x)); S(x) == Affine(y) && if x == 0 then y == 0 else Product(x, y) == 1
  {
    InvAffineInverts(S(x));
    if x == 0 {
      assert S(0) == 0x63;
    } else {
      hide S, Product, Affine, InvAffine;
      if x < 0x40 {
        InverseFirstQuarter(x);
      } else if x < 0x80 {
        InverseSecondQuarter(x);
      } else if x < 0xc0 {
        InverseThirdQuarter(x);
      } else {
        InverseFourthQuarter(x);
      }
    }
  }

  // ---------------------------------------------------------------- lookups

  /** The folded tables: entry x holds the products of S(x), or of Si(x), or of x itself,
      with one column of the mixing matrix. */
  function T1(x: bv8): bv32 { Pack(Xtime(S(x)), S(x), S(x), Times3(S(x))) }
  function T2(x: bv8): bv32 { Pack(Times3(S(x)), Xtime(S(x)), S(x), S(x)) }
  function T3(x: bv8): bv32 { Pack(S(x), Times3(S(x)), Xtime(S(x)), S(x)) }
  function T4(x: bv8): bv32 { Pack(S(x), S(x), Times3(S(x)), Xtime(S(x))) }

  function U1(x: bv8): bv32 { Pack(Times14(x), Times9(x), Times13(x), Times11(x)) }
  function U2(x: bv8): bv32 { Pack(Times11(x), Times14(x), Times9(x), Times13(x)) }
  function U3(x: bv8): bv32 { Pack(Times13(x), Times11(x), Times14(x), Times9(x)) }
  function U4(x: bv8): bv32 { Pack(Times9(x), Times13(x), Times11(x), Times14(x)) }

  function T5(x: bv8): bv32 { U1(Si(x)) }
  function T6(x: bv8): bv32 { U2(Si(x)) }
  function T7(x: bv8): bv32 { U3(Si(x)) }
  function T8(x: bv8): bv32 { U4(Si(x)) }

  function Sum4(a: bv32, b: bv32, c: bv32, d: bv32): bv32 { AddW(AddW(a, b), AddW(c, d)) }

  lemma Sum4OfPacks(a0: bv8, a1: bv8, a2: bv8, a3: bv8, b0: bv8, b1: bv8, b2: bv8, b3: bv8,
                    c0: bv8, c1: bv8, c2: bv8, c3: bv8, d0: bv8, d1: bv8, d2: bv8, d3: bv8)
    ensures Sum4(Pack(a0, a1, a2, a3), Pack(b0, b1, b2, b3), Pack(c0, c1, c2, c3), Pack(d0, d1, d2, d3))
         == Pack(Add4(a0, b0, c0, d0), Add4(a1, b1, c1, d1), Add4(a2, b2, c2, d2), Add4(a3, b3, c3, d3))
  {
    hide Pack, Add, AddW;
    AddOfPacks(a0, a1, a2, a3, b0, b1, b2, b3);
    AddOfPacks(c0, c1, c2, c3, d0, d1, d2, d3);
    AddOfPacks(Add(a0, b0), Add(a1, b1), Add(a2, b2), Add(a3, b3), Add(c0, d0), Add(c1, d1), Add(c2, d2), Add(c3, d3));
  }

  /** A sum of four may be rotated. */
  lemma Add4Rotates(a: bv8, b: bv8, c: bv8, d: bv8)
    ensures Add4(a, b, c, d) == Add4(b, c, d, a) == Add4(c, d, a, b) == Add4(d, a, b, c)
  {
    hide Add4;
    Add4IsXor(a, b, c, d);
    Add4IsXor(b, c, d, a);
    Add4IsXor(c, d, a, b);
    Add4IsXor(d, a, b, c);
  }

  lemma Add4IsXor(a: bv8, b: bv8, c: bv8, d: bv8)
    ensures Add4(a, b, c, d) == a ^ b ^ c ^ d
  {}

  /** Four lookups in the encryption tables substitute and mix a column. */
  lemma EncryptLookup(a: bv8, b: bv8, c: bv8, d: bv8)
    ensures Sum4(T1(a), T2(b), T3(c), T4(d)) == MixColumn(Pack(S(a), S(b), S(c), S(d)))
  {
    hide S, Pack, Xtime, Times3, Add4, Sum4, B0, B1, B2, B3;
    var p, q, r, s := S(a), S(b), S(c), S(d);
    BytesOfPack(p, q, r, s);
    Sum4OfPacks(Xtime(p), p, p, Times3(p), Times3(q), Xtime(q), q, q, r, Times3(r), Xtime(r), r, s, s, Times3(s), Xtime(s));
    Add4Rotates(Xtime(q), Times3(r), s, p);
    Add4Rotates(Xtime(r), Times3(s), p, q);
    Add4Rotates(Xtime(s), Times3(p), q, r);
  }

  /** Four lookups in U1..U4 apply the inverse mixing to a column. */
  lemma InverseMixLookup(a: bv8, b: bv8, c: bv8, d: bv8)
    ensures Sum4(U1(a), U2(b), U3(c), U4(d)) == InvMixColumn(Pack(a, b, c, d))
  {
    hide Pack, Times9, Times11, Times13, Times14, Add4, Sum4, B0, B1, B2, B3;
    BytesOfPack(a, b, c, d);
    Sum4OfPacks(Times14(a), Times9(a), Times13(a), Times11(a), Times11(b), Times14(b), Times9(b), Times13(b),
                Times13(c), Times11(c), Times14(c), Times9(c), Times9(d), Times13(d), Times11(d), Times14(d));
    Add4Rotates(Times14(b), Times11(c), Times13(d), Times9(a));
    Add4Rotates(Times14(c), Times11(d), Times13(a), Times9(b));
    Add4Rotates(Times14(d), Times11(a), Times13(b), Times9(c));
  }

  /** Four lookups in the decryption tables undo substitution and mixing of a column. */
  lemma DecryptLookup(a: bv8, b: bv8, c: bv8, d: bv8)
    ensures Sum4(T5(a), T6(b), T7(c), T8(d)) == InvMixColumn(Pack(Si(a), Si(b), Si(c), Si(d)))
  {
    hide Si, Pack, U1, U2, U3, U4, Sum4, InvMixColumn;
    InverseMixLookup(Si(a), Si(b), Si(c), Si(d));
  }

  /** The substitution applied to the four bytes of a word. */
  function SubWord(w: bv32): bv32 { Pack(S(B0(w)), S(B1(w)), S(B2(w)), S(B3(w))) }
  function InvSubWord(w: bv32): bv32 { Pack(Si(B0(w)), Si(B1(w)), Si(B2(w)), Si(B3(w))) }

  lemma InvSubWordInverts(w: bv32)
    ensures InvSubWord(SubWord(w)) == w
  {
    hide S, Si, Pack, B0, B1, B2, B3;
    BytesOfPack(S(B0(w)), S(B1(w)), S(B2(w)), S(B3(w)));
    SiInvertsS(B0(w));
    SiInvertsS(B1(w));
    SiInvertsS(B2(w));
    SiInvertsS(B3(w));
    PackOfBytes(w);
  }
}
