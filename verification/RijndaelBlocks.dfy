/** Blocks of bytes as states of columns, and the block cipher on bytes. */
module RijndaelBlocks {
  import opened Gf256
  import opened RijndaelTables
  import opened RijndaelCipher
  import opened Sequences

  type Bytes = seq<bv8>

  function WordAt(b: Bytes, i: nat): bv32
    requires 4 * i + 3 < |b|
  {
    Pack(b[4 * i], b[4 * i + 1], b[4 * i + 2], b[4 * i + 3])
  }

  function ToWords(b: Bytes, n: nat): (s: State)
    requires |b| == 4 * n
    ensures |s| == n
  {
    seq(n, i requires 0 <= i < n => WordAt(b, i))
  }

  function ByteOf(w: bv32, j: nat): bv8 {
    if j == 0 then B0(w) else if j == 1 then B1(w) else if j == 2 then B2(w) else B3(w)
  }

  function ToBytes(s: State): (b: Bytes)
    ensures |b| == 4 * |s|
  {
    seq(4 * |s|, j requires 0 <= j < 4 * |s| => ByteOf(s[j / 4], j % 4))
  }

  lemma WordsOfBytes(s: State)
    ensures ToWords(ToBytes(s), |s|) == s
  {
    hide WordAt, ToBytes;
    forall i | 0 <= i < |s|
      ensures ToWords(ToBytes(s), |s|)[i] == s[i]
    {
      ColumnOfBytes(s, i);
    }
  }

  lemma ColumnOfBytes(s: State, i: nat)
    requires i < |s|
    ensures WordAt(ToBytes(s), i) == s[i]
  {
    hide Pack, B0, B1, B2, B3;
    assert (4 * i) / 4 == (4 * i + 1) / 4 == (4 * i + 2) / 4 == (4 * i + 3) / 4 == i;
    PackOfBytes(s[i]);
  }

  /** Encryption and decryption of one block of 4 * nb bytes. */
  function EncryptedBlock(key: State, nb: nat, b: Bytes): (c: Bytes)
    requires Columns(|key|) && Columns(nb) && |b| == 4 * nb
    ensures |c| == 4 * nb
  {
    ToBytes(Cipher(key, nb, ToWords(b, nb)))
  }

  function DecryptedBlock(key: State, nb: nat, b: Bytes): (c: Bytes)
    requires Columns(|key|) && Columns(nb) && |b| == 4 * nb
    ensures |c| == 4 * nb
  {
    ToBytes(EqInvCipher(key, nb, ToWords(b, nb)))
  }

  lemma BytesOfWords(b: Bytes, n: nat)
    requires |b| == 4 * n
    ensures ToBytes(ToWords(b, n)) == b
  {
    hide Pack, B0, B1, B2, B3;
    forall j | 0 <= j < 4 * n
      ensures ToBytes(ToWords(b, n))[j] == b[j]
    {
      var i := j / 4;
      BytesOfPack(b[4 * i], b[4 * i + 1], b[4 * i + 2], b[4 * i + 3]);
    }
  }

  /** Decrypting an encrypted block gives the block back, for every key and all nine size pairs. */
  lemma BlockRoundTrip(key: State, nb: nat, b: Bytes)
    requires Columns(|key|) && Columns(nb) && |b| == 4 * nb
    ensures DecryptedBlock(key, nb, EncryptedBlock(key, nb, b)) == b
  {
    hide ToBytes, ToWords, Cipher, EqInvCipher;
    var s := ToWords(b, nb);
    WordsOfBytes(Cipher(key, nb, s));
    DecryptionInverts(key, nb, s);
    BytesOfWords(b, nb);
  }

  // ------------------------------------------------------------ the cipher byte by byte

  /** By how many columns row j is shifted (section 5.1.2 of FIPS 197 and, for longer blocks, the
      Rijndael it is taken from): 1, 2, 3 for blocks of 16 and 24 bytes, 1, 3, 4 for 32. */
  function RowOffset(nb: nat, j: nat): nat { if nb == 8 && j >= 2 then j + 1 else j }

  /** The byte of row j that comes to stand in column i. */
  function FromRow(s: State, i: nat, j: nat): bv8
    requires i < |s|
  {
    ByteOf(s[(i + RowOffset(|s|, j)) % |s|], j)
  }

  /** Key byte j of column i in round r. */
  function KeyByte(key: State, nb: nat, r: nat, i: nat, j: nat): bv8
    requires Columns(|key|) && Columns(nb) && r <= Rounds(|key|, nb) && i < nb
  {
    ByteOf(RoundKey(key, nb, r)[i], j)
  }

  lemma RowOffsetIsShift(nb: nat)
    requires Columns(nb)
    ensures RowOffset(nb, 1) == Shift(nb, 1) && RowOffset(nb, 2) == Shift(nb, 2) && RowOffset(nb, 3) == Shift(nb, 3)
  {}

  lemma ShiftedSubstituted(s: State, i: nat)
    requires Columns(|s|) && i < |s|
    ensures ShiftRows(SubBytes(s))[i] == Pack(S(FromRow(s, i, 0)), S(FromRow(s, i, 1)), S(FromRow(s, i, 2)), S(FromRow(s, i, 3)))
  {
    hide Pack, B0, B1, B2, B3, S, Shift, RowOffset, ShiftRows, SubBytes;
    RowOffsetIsShift(|s|);
    assert RowOffset(|s|, 0) == 0 by { NoOffset(|s|); }
    ShiftedSubstitutedColumn(s, i);
  }

  lemma NoOffset(nb: nat)
    ensures RowOffset(nb, 0) == 0
  {}

  lemma ByteOfAdd(v: bv32, w: bv32, j: nat)
    ensures ByteOf(AddW(v, w), j) == Add(ByteOf(v, j), ByteOf(w, j))
  {
    hide AddW, Add, B0, B1, B2, B3;
    BytesOfAdd(v, w);
  }

  lemma ByteOfPack(a: bv8, b: bv8, c: bv8, d: bv8, j: nat)
    requires j < 4
    ensures ByteOf(Pack(a, b, c, d), j) == if j == 0 then a else if j == 1 then b else if j == 2 then c else d
  {
    hide Pack, B0, B1, B2, B3;
    BytesOfPack(a, b, c, d);
  }

  /** The first state is the block plus the first bytes of the key. */
  lemma StartByte(key: State, nb: nat, b: Bytes, i: nat, j: nat)
    requires Columns(|key|) && Columns(nb) && |b| == 4 * nb && i < nb && j < 4
    ensures ByteOf(EncState(key, nb, ToWords(b, nb), 0)[i], j) == Add(b[4 * i + j], KeyByte(key, nb, 0, i, j))
    ensures i < |key| ==> KeyByte(key, nb, 0, i, j) == ByteOf(key[i], j)
  {
    hide ByteOf, AddW, Add, Pack;
    ByteOfAdd(ToWords(b, nb)[i], RoundKey(key, nb, 0)[i], j);
    ByteOfPack(b[4 * i], b[4 * i + 1], b[4 * i + 2], b[4 * i + 3], j);
  }

  /** A column after a round: the matrix of section 5.1.3 of FIPS 197 times four substituted bytes,
      one from each shifted row, plus the key. */
  lemma RoundBytes(key: State, nb: nat, s: State, r: nat, i: nat)
    requires Columns(|key|) && Columns(nb) && |s| == nb && 0 < r <= Rounds(|key|, nb) && i < nb
    ensures var t, w := EncState(key, nb, s, r - 1), EncState(key, nb, s, r)[i];
            var a, b, c, d := S(FromRow(t, i, 0)), S(FromRow(t, i, 1)), S(FromRow(t, i, 2)), S(FromRow(t, i, 3));
            && ByteOf(w, 0) == Add(Add4(Product(a, 2), Product(b, 3), c, d), KeyByte(key, nb, r, i, 0))
            && ByteOf(w, 1) == Add(Add4(a, Product(b, 2), Product(c, 3), d), KeyByte(key, nb, r, i, 1))
            && ByteOf(w, 2) == Add(Add4(a, b, Product(c, 2), Product(d, 3)), KeyByte(key, nb, r, i, 2))
            && ByteOf(w, 3) == Add(Add4(Product(a, 3), b, c, Product(d, 2)), KeyByte(key, nb, r, i, 3))
  {
    hide ByteOf, FromRow, S, AddW, Add, Add4, Product, Pack, ShiftRows, SubBytes, RoundKey, MixColumn;
    var t, k := EncState(key, nb, s, r - 1), RoundKey(key, nb, r);
    var a, b, c, d := S(FromRow(t, i, 0)), S(FromRow(t, i, 1)), S(FromRow(t, i, 2)), S(FromRow(t, i, 3));
    var m := MixColumn(Pack(a, b, c, d));
    ShiftedSubstituted(t, i);
    MixedBytes(a, b, c, d);
    assert EncState(key, nb, s, r)[i] == AddW(m, k[i]);
    ByteOfAdd(m, k[i], 0);
    ByteOfAdd(m, k[i], 1);
    ByteOfAdd(m, k[i], 2);
    ByteOfAdd(m, k[i], 3);
  }

  lemma MixedBytes(a: bv8, b: bv8, c: bv8, d: bv8)
    ensures var m := MixColumn(Pack(a, b, c, d));
            && ByteOf(m, 0) == Add4(Product(a, 2), Product(b, 3), c, d) && ByteOf(m, 1) == Add4(a, Product(b, 2), Product(c, 3), d)
            && ByteOf(m, 2) == Add4(a, b, Product(c, 2), Product(d, 3)) && ByteOf(m, 3) == Add4(Product(a, 3), b, c, Product(d, 2))
  {
    hide Pack, B0, B1, B2, B3, Add4, Product, Xtime, Times3;
    BytesOfPack(a, b, c, d);
    BytesOfPack(Row(a, b, c, d), Row(b, c, d, a), Row(c, d, a, b), Row(d, a, b, c));
    TimesAreProducts(a);
    TimesAreProducts(b);
    TimesAreProducts(c);
    TimesAreProducts(d);
    Add4Rotates(a, Xtime(b), Times3(c), d);
    Add4Rotates(a, b, Xtime(c), Times3(d));
    Add4Rotates(Times3(a), b, c, Xtime(d));
  }

  /** A byte of the encrypted block: the substituted byte of its row, shifted, of the state before
      the last round, plus the last key. */
  lemma EncryptedByte(key: State, nb: nat, b: Bytes, i: nat, j: nat)
    requires Columns(|key|) && Columns(nb) && |b| == 4 * nb && i < nb && j < 4
    ensures var nr := Rounds(|key|, nb);
            EncryptedBlock(key, nb, b)[4 * i + j] ==
            Add(S(FromRow(EncState(key, nb, ToWords(b, nb), nr - 1), i, j)), KeyByte(key, nb, nr, i, j))
  {
    hide ToWords, Cipher, FromRow, S, Add, KeyByte, EncState, ByteOf;
    ByteInColumn(Cipher(key, nb, ToWords(b, nb)), i, j);
    CipherByte(key, nb, ToWords(b, nb), i, j);
  }

  lemma ByteInColumn(s: State, i: nat, j: nat)
    requires i < |s| && j < 4
    ensures ToBytes(s)[4 * i + j] == ByteOf(s[i], j)
  {
    hide ByteOf;
    assert (4 * i + j) / 4 == i && (4 * i + j) % 4 == j;
  }

  lemma CipherByte(key: State, nb: nat, s: State, i: nat, j: nat)
    requires Columns(|key|) && Columns(nb) && |s| == nb && i < nb && j < 4
    ensures var nr := Rounds(|key|, nb);
            ByteOf(Cipher(key, nb, s)[i], j) == Add(S(FromRow(EncState(key, nb, s, nr - 1), i, j)), KeyByte(key, nb, nr, i, j))
  {
    hide ByteOf, FromRow, S, AddW, Add, Pack, ShiftRows, SubBytes, RoundKey, EncState;
    var nr := Rounds(|key|, nb);
    var t, k := EncState(key, nb, s, nr - 1), RoundKey(key, nb, nr);
    var w := Pack(S(FromRow(t, i, 0)), S(FromRow(t, i, 1)), S(FromRow(t, i, 2)), S(FromRow(t, i, 3)));
    ShiftedSubstituted(t, i);
    ByteOfAdd(w, k[i], j);
    ByteOfPack(S(FromRow(t, i, 0)), S(FromRow(t, i, 1)), S(FromRow(t, i, 2)), S(FromRow(t, i, 3)), j);
  }

  // ------------------------------------------------------------ storing columns

  /** The bytes of the first n columns of s stand in r from position off. */
  ghost predicate Stored(r: Bytes, off: nat, s: State, n: nat)
    requires n <= |s| && off + 4 * n <= |r|
  {
    forall c | 0 <= c < n ::
      r[off + 4 * c] == B0(s[c]) && r[off + 4 * c + 1] == B1(s[c]) &&
      r[off + 4 * c + 2] == B2(s[c]) && r[off + 4 * c + 3] == B3(s[c])
  }

  lemma StoredAll(r: Bytes, off: nat, s: State)
    requires off + 4 * |s| <= |r| && Stored(r, off, s, |s|)
    ensures r[off..off + 4 * |s|] == ToBytes(s)
  {
    hide B0, B1, B2, B3;
    forall j | 0 <= j < 4 * |s|
      ensures r[off..off + 4 * |s|][j] == ToBytes(s)[j]
    {
      assert j == 4 * (j / 4) + j % 4;
    }
  }

  /** One column of a round done by table lookups is that column after the four
      transformations done one after the other. */
  lemma EncryptRoundColumn(s: State, k: State, i: nat)
    requires |s| == |k| && i < |s|
    ensures var n := |s|;
            AddRoundKey(MixColumns(ShiftRows(SubBytes(s))), k)[i] ==
            AddW(Sum4(T1(B0(s[i])), T2(B1(s[(i + Shift(n, 1)) % n])),
                      T3(B2(s[(i + Shift(n, 2)) % n])), T4(B3(s[(i + Shift(n, 3)) % n]))), k[i])
  {
    hide Pack, B0, B1, B2, B3, S, T1, T2, T3, T4, Sum4, AddW, MixColumn, Shift;
    ShiftedSubstitutedColumn(s, i);
    var n := |s|;
    EncryptLookup(B0(s[i]), B1(s[(i + Shift(n, 1)) % n]), B2(s[(i + Shift(n, 2)) % n]), B3(s[(i + Shift(n, 3)) % n]));
  }

  lemma ShiftedSubstitutedColumn(s: State, i: nat)
    requires i < |s|
    ensures var n := |s|;
            ShiftRows(SubBytes(s))[i] == Pack(S(B0(s[i])), S(B1(s[(i + Shift(n, 1)) % n])),
                                             S(B2(s[(i + Shift(n, 2)) % n])), S(B3(s[(i + Shift(n, 3)) % n])))
  {
    hide Pack, B0, B1, B2, B3, S, Shift;
    var n := |s|;
    var p, q, r, t := s[i], s[(i + Shift(n, 1)) % n], s[(i + Shift(n, 2)) % n], s[(i + Shift(n, 3)) % n];
    BytesOfPack(S(B0(p)), S(B1(p)), S(B2(p)), S(B3(p)));
    BytesOfPack(S(B0(q)), S(B1(q)), S(B2(q)), S(B3(q)));
    BytesOfPack(S(B0(r)), S(B1(r)), S(B2(r)), S(B3(r)));
    BytesOfPack(S(B0(t)), S(B1(t)), S(B2(t)), S(B3(t)));
  }

  lemma DecryptRoundColumn(s: State, k: State, i: nat)
    requires |s| == |k| && i < |s|
    ensures var n := |s|;
            AddRoundKey(InvMixColumns(InvShiftRows(InvSubBytes(s))), k)[i] ==
            AddW(Sum4(T5(B0(s[i])), T6(B1(s[(i + InvShift(n, 1)) % n])),
                      T7(B2(s[(i + InvShift(n, 2)) % n])), T8(B3(s[(i + InvShift(n, 3)) % n]))), k[i])
  {
    hide Pack, B0, B1, B2, B3, Si, T5, T6, T7, T8, Sum4, AddW, InvMixColumn, InvShift;
    ShiftedInvSubstitutedColumn(s, i);
    var n := |s|;
    DecryptLookup(B0(s[i]), B1(s[(i + InvShift(n, 1)) % n]), B2(s[(i + InvShift(n, 2)) % n]), B3(s[(i + InvShift(n, 3)) % n]));
  }

  lemma ShiftedInvSubstitutedColumn(s: State, i: nat)
    requires i < |s|
    ensures var n := |s|;
            InvShiftRows(InvSubBytes(s))[i] == Pack(Si(B0(s[i])), Si(B1(s[(i + InvShift(n, 1)) % n])),
                                                   Si(B2(s[(i + InvShift(n, 2)) % n])), Si(B3(s[(i + InvShift(n, 3)) % n])))
  {
    hide Pack, B0, B1, B2, B3, Si, InvShift;
    var n := |s|;
    var p, q, r, t := s[i], s[(i + InvShift(n, 1)) % n], s[(i + InvShift(n, 2)) % n], s[(i + InvShift(n, 3)) % n];
    BytesOfPack(Si(B0(p)), Si(B1(p)), Si(B2(p)), Si(B3(p)));
    BytesOfPack(Si(B0(q)), Si(B1(q)), Si(B2(q)), Si(B3(q)));
    BytesOfPack(Si(B0(r)), Si(B1(r)), Si(B2(r)), Si(B3(r)));
    BytesOfPack(Si(B0(t)), Si(B1(t)), Si(B2(t)), Si(B3(t)));
  }

  /** The four bytes the last round writes for column i are the bytes of the final state. */
  lemma EncryptLastColumn(s: State, k: State, i: nat)
    requires |s| == |k| && i < |s|
    ensures var n, w := |s|, AddRoundKey(ShiftRows(SubBytes(s)), k)[i];
            Add(S(B0(s[i])), B0(k[i])) == B0(w) &&
            Add(S(B1(s[(i + Shift(n, 1)) % n])), B1(k[i])) == B1(w) &&
            Add(S(B2(s[(i + Shift(n, 2)) % n])), B2(k[i])) == B2(w) &&
            Add(S(B3(s[(i + Shift(n, 3)) % n])), B3(k[i])) == B3(w)
  {
    hide Pack, B0, B1, B2, B3, S, Add, AddW, Shift;
    ShiftedSubstitutedColumn(s, i);
    var n := |s|;
    BytesOfPack(S(B0(s[i])), S(B1(s[(i + Shift(n, 1)) % n])), S(B2(s[(i + Shift(n, 2)) % n])), S(B3(s[(i + Shift(n, 3)) % n])));
    BytesOfAdd(ShiftRows(SubBytes(s))[i], k[i]);
  }

  lemma DecryptLastColumn(s: State, k: State, i: nat)
    requires |s| == |k| && i < |s|
    ensures var n, w := |s|, AddRoundKey(InvShiftRows(InvSubBytes(s)), k)[i];
            Add(Si(B0(s[i])), B0(k[i])) == B0(w) &&
            Add(Si(B1(s[(i + InvShift(n, 1)) % n])), B1(k[i])) == B1(w) &&
            Add(Si(B2(s[(i + InvShift(n, 2)) % n])), B2(k[i])) == B2(w) &&
            Add(Si(B3(s[(i + InvShift(n, 3)) % n])), B3(k[i])) == B3(w)
  {
    hide Pack, B0, B1, B2, B3, Si, Add, AddW, InvShift;
    ShiftedInvSubstitutedColumn(s, i);
    var n := |s|;
    BytesOfPack(Si(B0(s[i])), Si(B1(s[(i + InvShift(n, 1)) % n])), Si(B2(s[(i + InvShift(n, 2)) % n])), Si(B3(s[(i + InvShift(n, 3)) % n])));
    BytesOfAdd(InvShiftRows(InvSubBytes(s))[i], k[i]);
  }

  lemma SpliceTwice(r: Bytes, off: nat, b: Bytes, c: Bytes)
    requires |b| == |c| && off + |b| <= |r|
    ensures Splice(r, off, b)[off..off + |b|] == b
    ensures Splice(Splice(r, off, b), off, c) == Splice(r, off, c)
    ensures Splice(r, off, b)[off + |b|..] == r[off + |b|..]
  {}

  lemma SpliceTail(r: Bytes, off: nat, b: Bytes, m: nat)
    requires off + |b| <= m <= |r|
    ensures Splice(r, off, b)[m..] == r[m..]
  {}

  /** The columns of last are being stored over before: n of them are in place, and nothing else has changed. */
  ghost predicate Storing(before: Bytes, now: Bytes, off: nat, last: State, n: nat) {
    && |now| == |before| && n <= |last| && off + 4 * |last| <= |now|
    && Stored(now, off, last, n)
    && forall m | 0 <= m < |now| && !(off <= m < off + 4 * |last|) :: now[m] == before[m]
  }

  lemma NothingStored(before: Bytes, off: nat, last: State)
    requires off + 4 * |last| <= |before|
    ensures Storing(before, before, off, last, 0)
  {}

  lemma StoredIsSplice(before: Bytes, after: Bytes, off: nat, s: State)
    requires Storing(before, after, off, s, |s|)
    ensures off + |ToBytes(s)| <= |before| && after == Splice(before, off, ToBytes(s))
  {
    hide ToBytes, Stored;
    StoredAll(after, off, s);
    assert after == after[..off] + after[off..off + 4 * |s|] + after[off + 4 * |s|..];
    assert after[..off] == before[..off];
    assert after[off + 4 * |s|..] == before[off + 4 * |s|..];
  }

  /** One column of the unrolled round, from the words it looks at. */
  function EncryptWord(w0: bv32, w1: bv32, w2: bv32, w3: bv32, k: bv32): bv32 {
    AddW(Sum4(T1(B0(w0)), T2(B1(w1)), T3(B2(w2)), T4(B3(w3))), k)
  }

  lemma FourColumnsEncryptRound(s: State, k: State, i: nat, i1: nat, i2: nat, i3: nat)
    requires |s| == |k| == 4 && i < 4 && i1 == (i + 1) % 4 && i2 == (i + 2) % 4 && i3 == (i + 3) % 4
    ensures AddRoundKey(MixColumns(ShiftRows(SubBytes(s))), k)[i] == EncryptWord(s[i], s[i1], s[i2], s[i3], k[i])
  {
    hide T1, T2, T3, T4, Sum4, AddW, B0, B1, B2, B3, AddRoundKey, MixColumns, ShiftRows, SubBytes;
    EncryptRoundColumn(s, k, i);
  }

  /** The unrolled round of the 16-byte block is the general round at four columns. */
  lemma UnrolledEncryptRound(s: State, k: State)
    requires |s| == |k| == 4
    ensures AddRoundKey(MixColumns(ShiftRows(SubBytes(s))), k) ==
            [EncryptWord(s[0], s[1], s[2], s[3], k[0]), EncryptWord(s[1], s[2], s[3], s[0], k[1]),
             EncryptWord(s[2], s[3], s[0], s[1], k[2]), EncryptWord(s[3], s[0], s[1], s[2], k[3])]
  {
    hide EncryptWord, AddRoundKey, MixColumns, ShiftRows, SubBytes;
    FourColumnsEncryptRound(s, k, 0, 1, 2, 3);
    FourColumnsEncryptRound(s, k, 1, 2, 3, 0);
    FourColumnsEncryptRound(s, k, 2, 3, 0, 1);
    FourColumnsEncryptRound(s, k, 3, 0, 1, 2);
  }

  lemma UnrolledEncryptLast(s: State, k: State)
    requires |s| == |k| == 4
    ensures var w := AddRoundKey(ShiftRows(SubBytes(s)), k);
            B0(w[0]) == Add(S(B0(s[0])), B0(k[0])) && B1(w[0]) == Add(S(B1(s[1])), B1(k[0])) &&
            B2(w[0]) == Add(S(B2(s[2])), B2(k[0])) && B3(w[0]) == Add(S(B3(s[3])), B3(k[0])) &&
            B0(w[1]) == Add(S(B0(s[1])), B0(k[1])) && B1(w[1]) == Add(S(B1(s[2])), B1(k[1])) &&
            B2(w[1]) == Add(S(B2(s[3])), B2(k[1])) && B3(w[1]) == Add(S(B3(s[0])), B3(k[1])) &&
            B0(w[2]) == Add(S(B0(s[2])), B0(k[2])) && B1(w[2]) == Add(S(B1(s[3])), B1(k[2])) &&
            B2(w[2]) == Add(S(B2(s[0])), B2(k[2])) && B3(w[2]) == Add(S(B3(s[1])), B3(k[2])) &&
            B0(w[3]) == Add(S(B0(s[3])), B0(k[3])) && B1(w[3]) == Add(S(B1(s[0])), B1(k[3])) &&
            B2(w[3]) == Add(S(B2(s[1])), B2(k[3])) && B3(w[3]) == Add(S(B3(s[2])), B3(k[3]))
  {
    hide S, Add, B0, B1, B2, B3, AddRoundKey, MixColumns, ShiftRows, SubBytes;
    EncryptLastColumn(s, k, 0);
    EncryptLastColumn(s, k, 1);
    EncryptLastColumn(s, k, 2);
    EncryptLastColumn(s, k, 3);
  }

  /** One column of the unrolled round, from the words it looks at. */
  function DecryptWord(w0: bv32, w1: bv32, w2: bv32, w3: bv32, k: bv32): bv32 {
    AddW(Sum4(T5(B0(w0)), T6(B1(w1)), T7(B2(w2)), T8(B3(w3))), k)
  }

  lemma FourColumnsDecryptRound(s: State, k: State, i: nat, i1: nat, i2: nat, i3: nat)
    requires |s| == |k| == 4 && i < 4 && i1 == (i + 3) % 4 && i2 == (i + 2) % 4 && i3 == (i + 1) % 4
    ensures AddRoundKey(InvMixColumns(InvShiftRows(InvSubBytes(s))), k)[i] == DecryptWord(s[i], s[i1], s[i2], s[i3], k[i])
  {
    hide T5, T6, T7, T8, Sum4, AddW, B0, B1, B2, B3, AddRoundKey, InvMixColumns, InvShiftRows, InvSubBytes;
    DecryptRoundColumn(s, k, i);
  }

  /** The unrolled decryption round is the general one at four columns. */
  lemma UnrolledDecryptRound(s: State, k: State)
    requires |s| == |k| == 4
    ensures AddRoundKey(InvMixColumns(InvShiftRows(InvSubBytes(s))), k) ==
            [DecryptWord(s[0], s[3], s[2], s[1], k[0]), DecryptWord(s[1], s[0], s[3], s[2], k[1]),
             DecryptWord(s[2], s[1], s[0], s[3], k[2]), DecryptWord(s[3], s[2], s[1], s[0], k[3])]
  {
    hide DecryptWord, AddRoundKey, InvMixColumns, InvShiftRows, InvSubBytes;
    FourColumnsDecryptRound(s, k, 0, 3, 2, 1);
    FourColumnsDecryptRound(s, k, 1, 0, 3, 2);
    FourColumnsDecryptRound(s, k, 2, 1, 0, 3);
    FourColumnsDecryptRound(s, k, 3, 2, 1, 0);
  }

  lemma UnrolledDecryptLast(s: State, k: State)
    requires |s| == |k| == 4
    ensures var w := AddRoundKey(InvShiftRows(InvSubBytes(s)), k);
            B0(w[0]) == Add(Si(B0(s[0])), B0(k[0])) && B1(w[0]) == Add(Si(B1(s[3])), B1(k[0])) &&
            B2(w[0]) == Add(Si(B2(s[2])), B2(k[0])) && B3(w[0]) == Add(Si(B3(s[1])), B3(k[0])) &&
            B0(w[1]) == Add(Si(B0(s[1])), B0(k[1])) && B1(w[1]) == Add(Si(B1(s[0])), B1(k[1])) &&
            B2(w[1]) == Add(Si(B2(s[3])), B2(k[1])) && B3(w[1]) == Add(Si(B3(s[2])), B3(k[1])) &&
            B0(w[2]) == Add(Si(B0(s[2])), B0(k[2])) && B1(w[2]) == Add(Si(B1(s[1])), B1(k[2])) &&
            B2(w[2]) == Add(Si(B2(s[0])), B2(k[2])) && B3(w[2]) == Add(Si(B3(s[3])), B3(k[2])) &&
            B0(w[3]) == Add(Si(B0(s[3])), B0(k[3])) && B1(w[3]) == Add(Si(B1(s[2])), B1(k[3])) &&
            B2(w[3]) == Add(Si(B2(s[1])), B2(k[3])) && B3(w[3]) == Add(Si(B3(s[0])), B3(k[3]))
  {
    hide Si, Add, B0, B1, B2, B3, AddRoundKey, InvMixColumns, InvShiftRows, InvSubBytes;
    DecryptLastColumn(s, k, 0);
    DecryptLastColumn(s, k, 1);
    DecryptLastColumn(s, k, 2);
    DecryptLastColumn(s, k, 3);
  }
}
