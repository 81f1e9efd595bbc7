/** Rijndael as FIPS 197 describes it, one transformation at a time, for blocks of 4, 6 or 8
    columns: the reference the table-driven implementation is proved against, and the proof
    that decryption undoes encryption. */
module RijndaelCipher {
  import opened Gf256
  import opened RijndaelTables

  type State = seq<bv32>

  /** The table of round constants, in rows of six; the signed bytes of the source read as bytes. */
  function Rcon(i: nat): bv8
    requires i < 30
  {
    if i < 6 then Six(i, 1, 2, 4, 8, 16, 32)
    else if i < 12 then Six(i - 6, 64, 128, 27, 54, 108, 216)
    else if i < 18 then Six(i - 12, 171, 77, 154, 47, 94, 188)
    else if i < 24 then Six(i - 18, 99, 198, 151, 53, 106, 212)
    else Six(i - 24, 179, 125, 250, 239, 197, 145)
  }

  function Six(i: nat, v0: bv8, v1: bv8, v2: bv8, v3: bv8, v4: bv8, v5: bv8): bv8 {
    if i == 0 then v0 else if i == 1 then v1 else if i == 2 then v2
    else if i == 3 then v3 else if i == 4 then v4 else v5
  }

  /** The table holds the powers of x (section 5.2 of FIPS 197): each is twice the one before. */
  lemma RconDoubles(i: nat)
    requires i < 29
    ensures Rcon(0) == 1 && Rcon(i + 1) == Xtime(Rcon(i))
  {
    if i < 15 {
      FirstRconsDouble(i);
    } else {
      LaterRconsDouble(i);
    }
  }

  lemma FirstRconsDouble(i: nat)
    requires i < 15
    ensures Rcon(i + 1) == Xtime(Rcon(i))
  {}

  lemma LaterRconsDouble(i: nat)
    requires 15 <= i < 29
    ensures Rcon(i + 1) == Xtime(Rcon(i))
  {}

  predicate Columns(n: nat) { n == 4 || n == 6 || n == 8 }

  /** Rounds for key and block sizes in words. */
  function Rounds(nk: nat, nb: nat): nat {
    if nk == 4 then (if nb == 4 then 10 else if nb == 6 then 12 else 14)
    else if nk == 6 then (if nb != 8 then 12 else 14)
    else 14
  }

  /** FIPS 197 section 5.2 and section 5.1.2 give one count for both sizes: six more than the longer. */
  lemma RoundsAreSixMoreThanTheLonger(nk: nat, nb: nat)
    requires Columns(nk) && Columns(nb)
    ensures Rounds(nk, nb) == 6 + if nk < nb then nb else nk
  {}

  // ------------------------------------------------------------ key expansion

  function RotWord(w: bv32): bv32 { Pack(B1(w), B2(w), B3(w), B0(w)) }

  /** The place of column c of row r in a key laid out in rows of n words. */
  function At(n: nat, r: nat, c: nat): nat { r * n + c }

  /** Word j of a window whose first m words already belong to the next row. */
  function WindowWord(n: nat, q: nat, m: nat, j: nat): nat {
    At(n, if j < m then q + 1 else q, j)
  }

  lemma NextRow(n: nat, r: nat)
    ensures At(n, r + 1, 0) == At(n, r, 0) + n
  {}

  lemma WithinRow(n: nat, r: nat, c: nat)
    ensures At(n, r, c) == At(n, r, 0) + c
  {}

  /** Word i of the expanded key (section 5.2 of FIPS 197). */
  function KeyWord(key: seq<bv32>, i: nat): bv32
    requires Columns(|key|) && i < 30 * |key|
  {
    var nk := |key|;
    if i < nk then key[i]
    else
      var temp := KeyWord(key, i - 1);
      AddW(KeyWord(key, i - nk),
           if i % nk == 0 then AddW(SubWord(RotWord(temp)), Pack(Rcon(i / nk - 1), 0, 0, 0))
           else if nk > 6 && i % nk == 4 then SubWord(temp)
           else temp)
  }

  /** No size needs more words than the round constants last for. */
  lemma ScheduleFits(nk: nat, nb: nat)
    requires Columns(nk) && Columns(nb)
    ensures (Rounds(nk, nb) + 1) * nb <= 30 * nk
  {}

  lemma ScheduleIndex(nk: nat, nb: nat, r: nat, c: nat)
    requires Columns(nk) && Columns(nb) && r <= Rounds(nk, nb) && c < nb
    ensures At(nb, r, c) < (Rounds(nk, nb) + 1) * nb <= 30 * nk
  {}

  /** The recurrence window by window: word j of window q + 1 from window q. */
  lemma KeyWordStep(key: seq<bv32>, q: nat, j: nat)
    requires Columns(|key|) && q < 29 && j < |key|
    ensures At(|key|, q, j) < 30 * |key| && At(|key|, q, |key| - 1) < 30 * |key|
    ensures At(|key|, q + 1, j) < 30 * |key| && (j > 0 ==> At(|key|, q + 1, j - 1) < 30 * |key|)
    ensures KeyWord(key, At(|key|, q + 1, j)) == AddW(KeyWord(key, At(|key|, q, j)),
              if j == 0 then AddW(SubWord(RotWord(KeyWord(key, At(|key|, q, |key| - 1)))), Pack(Rcon(q), 0, 0, 0))
              else if |key| > 6 && j == 4 then SubWord(KeyWord(key, At(|key|, q + 1, j - 1)))
              else KeyWord(key, At(|key|, q + 1, j - 1)))
  {
    hide AddW, SubWord, RotWord, Pack, Rcon, At;
    IndexFacts(|key|, q, j);
  }

  /** Where word j of window q + 1 looks back to. */
  lemma IndexFacts(nk: nat, q: nat, j: nat)
    requires Columns(nk) && q < 29 && j < nk
    ensures var i := At(nk, q + 1, j);
            && nk <= i < 30 * nk && i - nk == At(nk, q, j) && i / nk == q + 1 && i % nk == j
            && At(nk, q, nk - 1) < 30 * nk
            && i - 1 == if j == 0 then At(nk, q, nk - 1) else At(nk, q + 1, j - 1)
  {
    WindowIndex(nk, q + 1, j);
  }

  lemma WindowIndex(nk: nat, q: nat, j: nat)
    requires Columns(nk) && j < nk
    ensures (q * nk + j) / nk == q && (q * nk + j) % nk == j
  {}

  /** The words w hold words q * nk .. of the expanded key, the first m of them already one row on. */
  ghost predicate IsWindow(key: seq<bv32>, w: seq<bv32>, q: nat, m: nat)
    requires Columns(|key|)
  {
    && |w| >= |key| && q < 30 && (m > 0 ==> q < 29)
    && forall j | 0 <= j < |key| :: WindowWord(|key|, q, m, j) < 30 * |key| && w[j] == KeyWord(key, WindowWord(|key|, q, m, j))
  }

  lemma WindowHolds(key: seq<bv32>, w: seq<bv32>, q: nat, m: nat, j: nat)
    requires Columns(|key|) && IsWindow(key, w, q, m) && j < |key|
    ensures var i := At(|key|, if j < m then q + 1 else q, j); i < 30 * |key| && w[j] == KeyWord(key, i)
  {
    hide KeyWord, At;
    assert WindowWord(|key|, q, m, j) == At(|key|, if j < m then q + 1 else q, j);
  }

  lemma WindowAdvances(key: seq<bv32>, w: seq<bv32>, q: nat, m: nat, v: bv32)
    requires Columns(|key|) && IsWindow(key, w, q, m) && q < 29 && m < |key|
    requires At(|key|, q + 1, m) < 30 * |key| && v == KeyWord(key, At(|key|, q + 1, m))
    ensures IsWindow(key, w[m := v], q, m + 1)
  {
    hide KeyWord, At;
    forall j | 0 <= j < |key| && j != m
      ensures WindowWord(|key|, q, m + 1, j) == WindowWord(|key|, q, m, j)
    {
    }
  }

  lemma WindowTurns(key: seq<bv32>, w: seq<bv32>, q: nat)
    requires Columns(|key|) && IsWindow(key, w, q, |key|)
    ensures IsWindow(key, w, q + 1, 0)
  {
    hide KeyWord, At;
    forall j | 0 <= j < |key|
      ensures WindowWord(|key|, q + 1, 0, j) == WindowWord(|key|, q, |key|, j)
    {
    }
  }

  lemma FirstWindow(key: seq<bv32>, w: seq<bv32>)
    requires Columns(|key|) && |w| >= |key| && forall j | 0 <= j < |key| :: w[j] == key[j]
    ensures IsWindow(key, w, 0, 0)
  {}

  /** A schedule that is not full after window q leaves a round constant for the next one. */
  lemma WindowsLeft(nk: nat, q: nat, count: nat)
    requires Columns(nk) && At(nk, q + 1, 0) < count <= 30 * nk
    ensures q < 29
  {}

  /** Cell t / nb, t % nb of a schedule is the only cell that holds word t. */
  lemma CellOfWord(nb: nat, t: nat, r: nat, c: nat)
    requires Columns(nb) && c < nb
    ensures t % nb < nb && At(nb, t / nb, t % nb) == t
    ensures At(nb, r, c) == t <==> r == t / nb && c == t % nb
  {}

  lemma OneCell(nb: nat, t: nat)
    requires Columns(nb)
    ensures forall r: nat, c: nat | c < nb :: At(nb, r, c) == t <==> r == t / nb && c == t % nb
  {
    hide At;
    forall r: nat, c: nat | c < nb
      ensures At(nb, r, c) == t <==> r == t / nb && c == t % nb
    {
      CellOfWord(nb, t, r, c);
    }
  }

  lemma RowOfWord(nk: nat, nb: nat, t: nat)
    requires Columns(nk) && Columns(nb) && t < (Rounds(nk, nb) + 1) * nb
    ensures t / nb <= Rounds(nk, nb)
  {}

  function RoundKey(key: seq<bv32>, nb: nat, r: nat): (k: State)
    requires Columns(|key|) && Columns(nb) && r <= Rounds(|key|, nb)
    ensures |k| == nb
  {
    seq(nb, c requires 0 <= c < nb => ScheduleIndex(|key|, nb, r, c); KeyWord(key, At(nb, r, c)))
  }

  /** The schedule of the equivalent inverse cipher (section 5.3.5 of FIPS 197): the round keys in
      reverse order, all but the outer two mixed backwards. */
  function DecRoundKey(key: seq<bv32>, nb: nat, r: nat): (k: State)
    requires Columns(|key|) && Columns(nb) && r <= Rounds(|key|, nb)
    ensures |k| == nb
  {
    var nr := Rounds(|key|, nb);
    if 0 < r < nr then InvMixColumns(RoundKey(key, nb, nr - r)) else RoundKey(key, nb, nr - r)
  }

  lemma MixedColumn(key: seq<bv32>, nb: nat, r: nat, c: nat)
    requires Columns(|key|) && Columns(nb) && 0 < r < Rounds(|key|, nb) && c < nb
    ensures DecRoundKey(key, nb, r)[c] == InvMixColumn(RoundKey(key, nb, Rounds(|key|, nb) - r)[c])
  {
    hide KeyWord, InvMixColumn;
  }

  // ------------------------------------------------------------ transformations

  function AddRoundKey(s: State, k: State): (t: State)
    requires |s| == |k|
    ensures |t| == |s|
  {
    seq(|s|, i requires 0 <= i < |s| => AddW(s[i], k[i]))
  }

  function SubBytes(s: State): (t: State)
    ensures |t| == |s|
  {
    seq(|s|, i requires 0 <= i < |s| => SubWord(s[i]))
  }

  function InvSubBytes(s: State): (t: State)
    ensures |t| == |s|
  {
    seq(|s|, i requires 0 <= i < |s| => InvSubWord(s[i]))
  }

  function MixColumns(s: State): (t: State)
    ensures |t| == |s|
  {
    seq(|s|, i requires 0 <= i < |s| => MixColumn(s[i]))
  }

  function InvMixColumns(s: State): (t: State)
    ensures |t| == |s|
  {
    seq(|s|, i requires 0 <= i < |s| => InvMixColumn(s[i]))
  }

  /** Row offsets: row j of a state of nb columns moves by Shift(nb, j) on encryption, and by
      InvShift(nb, j) on decryption. Row 0 stays. */
  function Shift(nb: nat, j: nat): nat {
    if j == 1 then 1
    else if j == 2 then (if nb == 8 then 3 else 2)
    else if nb == 8 then 4 else 3
  }

  function InvShift(nb: nat, j: nat): nat {
    if nb == 4 then (if j == 1 then 3 else if j == 2 then 2 else 1)
    else if nb == 6 then (if j == 1 then 5 else if j == 2 then 4 else 3)
    else (if j == 1 then 7 else if j == 2 then 5 else 4)
  }

  /** The rows of both columns of sm_shifts: 1, 2, 3 for blocks of 16 and 24 bytes and 1, 3, 4 for
      those of 32, and what is left to a full turn. */
  lemma RowOffsets()
    ensures Shift(4, 1) == 1 && Shift(4, 2) == 2 && Shift(4, 3) == 3
    ensures Shift(6, 1) == 1 && Shift(6, 2) == 2 && Shift(6, 3) == 3
    ensures Shift(8, 1) == 1 && Shift(8, 2) == 3 && Shift(8, 3) == 4
    ensures forall nb: nat, j: nat | Columns(nb) && 1 <= j <= 3 :: InvShift(nb, j) == nb - Shift(nb, j)
  {}

  function ShiftedColumn(s: State, i: nat, s1: nat, s2: nat, s3: nat): bv32
    requires i < |s|
  {
    var n := |s|;
    Pack(B0(s[i]), B1(s[(i + s1) % n]), B2(s[(i + s2) % n]), B3(s[(i + s3) % n]))
  }

  function ShiftRows(s: State): (t: State)
    ensures |t| == |s|
  {
    var n := |s|;
    seq(n, i requires 0 <= i < n => ShiftedColumn(s, i, Shift(n, 1), Shift(n, 2), Shift(n, 3)))
  }

  function InvShiftRows(s: State): (t: State)
    ensures |t| == |s|
  {
    var n := |s|;
    seq(n, i requires 0 <= i < n => ShiftedColumn(s, i, InvShift(n, 1), InvShift(n, 2), InvShift(n, 3)))
  }

  /** The two shifts of a row cancel: there and back is once around, and the offsets of
      FIPS 197 are the ones the inverse undoes. */
  lemma ShiftsCancel(nb: nat, i: nat, j: nat)
    requires Columns(nb) && i < nb && 1 <= j <= 3
    ensures ((i + InvShift(nb, j)) % nb + Shift(nb, j)) % nb == i
  {}

  lemma BytesOfShiftedColumn(s: State, i: nat)
    requires i < |s|
    ensures var n, w := |s|, ShiftRows(s)[i];
            B0(w) == B0(s[i]) && B1(w) == B1(s[(i + Shift(n, 1)) % n]) &&
            B2(w) == B2(s[(i + Shift(n, 2)) % n]) && B3(w) == B3(s[(i + Shift(n, 3)) % n])
  {
    hide Pack, B0, B1, B2, B3, Shift;
    var n := |s|;
    BytesOfPack(B0(s[i]), B1(s[(i + Shift(n, 1)) % n]), B2(s[(i + Shift(n, 2)) % n]), B3(s[(i + Shift(n, 3)) % n]));
  }

  lemma ColumnReturns(s: State, i: nat)
    requires Columns(|s|) && i < |s|
    ensures InvShiftRows(ShiftRows(s))[i] == s[i]
  {
    hide Pack, B0, B1, B2, B3, Shift, InvShift, ShiftRows;
    var n := |s|;
    ShiftsCancel(n, i, 1);
    ShiftsCancel(n, i, 2);
    ShiftsCancel(n, i, 3);
    BytesOfShiftedColumn(s, i);
    BytesOfShiftedColumn(s, (i + InvShift(n, 1)) % n);
    BytesOfShiftedColumn(s, (i + InvShift(n, 2)) % n);
    BytesOfShiftedColumn(s, (i + InvShift(n, 3)) % n);
    PackOfBytes(s[i]);
  }

  lemma InvShiftRowsInverts(s: State)
    requires Columns(|s|)
    ensures InvShiftRows(ShiftRows(s)) == s
  {
    hide ShiftRows, InvShiftRows;
    forall i | 0 <= i < |s|
      ensures InvShiftRows(ShiftRows(s))[i] == s[i]
    {
      ColumnReturns(s, i);
    }
  }

  lemma InvSubBytesInverts(s: State)
    ensures InvSubBytes(SubBytes(s)) == s
  {
    hide InvSubWord, SubWord;
    forall i | 0 <= i < |s|
      ensures InvSubBytes(SubBytes(s))[i] == s[i]
    {
      InvSubWordInverts(s[i]);
    }
  }

  lemma InvMixColumnsInverts(s: State)
    ensures InvMixColumns(MixColumns(s)) == s
  {
    hide MixColumn, InvMixColumn;
    forall i | 0 <= i < |s|
      ensures InvMixColumns(MixColumns(s))[i] == s[i]
    {
      InvMixColumnInverts(s[i]);
    }
  }

  lemma InvMixColumnsLinear(s: State, k: State)
    requires |s| == |k|
    ensures InvMixColumns(AddRoundKey(s, k)) == AddRoundKey(InvMixColumns(s), InvMixColumns(k))
  {
    hide InvMixColumn, AddW;
    forall i | 0 <= i < |s|
      ensures InvMixColumns(AddRoundKey(s, k))[i] == AddRoundKey(InvMixColumns(s), InvMixColumns(k))[i]
    {
      InvMixColumnLinear(s[i], k[i]);
    }
  }

  lemma AddWTwice(v: bv32, w: bv32)
    ensures AddW(AddW(v, w), w) == v
  {}

  lemma AddRoundKeyTwice(s: State, k: State)
    requires |s| == |k|
    ensures AddRoundKey(AddRoundKey(s, k), k) == s
  {
    hide AddW;
    forall i | 0 <= i < |s|
      ensures AddRoundKey(AddRoundKey(s, k), k)[i] == s[i]
    {
      AddWTwice(s[i], k[i]);
    }
  }

  /** Substitution works byte by byte, so it does not matter whether rows move before or after it. */
  lemma InvSubBytesCommutes(s: State)
    ensures InvSubBytes(InvShiftRows(s)) == InvShiftRows(InvSubBytes(s))
  {
    hide InvSubBytes, InvShiftRows;
    forall i | 0 <= i < |s|
      ensures InvSubBytes(InvShiftRows(s))[i] == InvShiftRows(InvSubBytes(s))[i]
    {
      InvSubBytesCommutesAt(s, i);
    }
  }

  lemma InvSubBytesCommutesAt(s: State, i: nat)
    requires i < |s|
    ensures InvSubBytes(InvShiftRows(s))[i] == InvShiftRows(InvSubBytes(s))[i]
  {
    hide Pack, B0, B1, B2, B3, InvShift, Si;
    var n := |s|;
    var p, q, r, t := s[i], s[(i + InvShift(n, 1)) % n], s[(i + InvShift(n, 2)) % n], s[(i + InvShift(n, 3)) % n];
    BytesOfPack(B0(p), B1(q), B2(r), B3(t));
    BytesOfPack(Si(B0(p)), Si(B1(p)), Si(B2(p)), Si(B3(p)));
    BytesOfPack(Si(B0(q)), Si(B1(q)), Si(B2(q)), Si(B3(q)));
    BytesOfPack(Si(B0(r)), Si(B1(r)), Si(B2(r)), Si(B3(r)));
    BytesOfPack(Si(B0(t)), Si(B1(t)), Si(B2(t)), Si(B3(t)));
  }

  // ------------------------------------------------------------ cipher and inverses

  /** The state after round r of section 5.1 of FIPS 197, r below the last. */
  function EncState(key: seq<bv32>, nb: nat, s: State, r: nat): (t: State)
    requires Columns(|key|) && Columns(nb) && |s| == nb && r <= Rounds(|key|, nb)
    ensures |t| == nb
  {
    if r == 0 then AddRoundKey(s, RoundKey(key, nb, 0))
    else AddRoundKey(MixColumns(ShiftRows(SubBytes(EncState(key, nb, s, r - 1)))), RoundKey(key, nb, r))
  }

  function Cipher(key: seq<bv32>, nb: nat, s: State): (t: State)
    requires Columns(|key|) && Columns(nb) && |s| == nb
    ensures |t| == nb
  {
    var nr := Rounds(|key|, nb);
    AddRoundKey(ShiftRows(SubBytes(EncState(key, nb, s, nr - 1))), RoundKey(key, nb, nr))
  }

  /** The state of the inverse cipher of section 5.3 after r of its rounds. */
  function InvState(key: seq<bv32>, nb: nat, s: State, r: nat): (t: State)
    requires Columns(|key|) && Columns(nb) && |s| == nb && r < Rounds(|key|, nb)
    ensures |t| == nb
  {
    var nr := Rounds(|key|, nb);
    if r == 0 then AddRoundKey(s, RoundKey(key, nb, nr))
    else InvMixColumns(AddRoundKey(InvSubBytes(InvShiftRows(InvState(key, nb, s, r - 1))), RoundKey(key, nb, nr - r)))
  }

  function InvCipher(key: seq<bv32>, nb: nat, s: State): (t: State)
    requires Columns(|key|) && Columns(nb) && |s| == nb
    ensures |t| == nb
  {
    AddRoundKey(InvSubBytes(InvShiftRows(InvState(key, nb, s, Rounds(|key|, nb) - 1))), RoundKey(key, nb, 0))
  }

  /** The state of the equivalent inverse cipher of section 5.3.5 after r of its rounds. */
  function DecState(key: seq<bv32>, nb: nat, s: State, r: nat): (t: State)
    requires Columns(|key|) && Columns(nb) && |s| == nb && r < Rounds(|key|, nb)
    ensures |t| == nb
  {
    if r == 0 then AddRoundKey(s, DecRoundKey(key, nb, 0))
    else AddRoundKey(InvMixColumns(InvShiftRows(InvSubBytes(DecState(key, nb, s, r - 1)))), DecRoundKey(key, nb, r))
  }

  function EqInvCipher(key: seq<bv32>, nb: nat, s: State): (t: State)
    requires Columns(|key|) && Columns(nb) && |s| == nb
    ensures |t| == nb
  {
    var nr := Rounds(|key|, nb);
    AddRoundKey(InvShiftRows(InvSubBytes(DecState(key, nb, s, nr - 1))), DecRoundKey(key, nb, nr))
  }

  /** One round of the straight inverse cipher is one of the equivalent with a mixed key. */
  lemma InverseRoundsAgree(t: State, k: State)
    requires |t| == |k|
    ensures InvMixColumns(AddRoundKey(InvSubBytes(InvShiftRows(t)), k)) ==
            AddRoundKey(InvMixColumns(InvShiftRows(InvSubBytes(t))), InvMixColumns(k))
  {
    hide InvSubBytes, InvShiftRows, InvMixColumns, AddRoundKey;
    InvSubBytesCommutes(t);
    InvMixColumnsLinear(InvSubBytes(InvShiftRows(t)), k);
  }

  lemma {:induction false} DecStateIsInvState(key: seq<bv32>, nb: nat, s: State, r: nat)
    requires Columns(|key|) && Columns(nb) && |s| == nb && r < Rounds(|key|, nb)
    ensures DecState(key, nb, s, r) == InvState(key, nb, s, r)
  {
    if r == 0 {
      hide RoundKey, AddRoundKey, Rounds;
    } else {
      hide RoundKey, DecRoundKey, InvSubBytes, InvShiftRows, InvMixColumns, AddRoundKey, Rounds;
      DecStateIsInvState(key, nb, s, r - 1);
      InverseRoundsAgree(InvState(key, nb, s, r - 1), RoundKey(key, nb, Rounds(|key|, nb) - r));
      InnerKeyIsMixed(key, nb, r);
    }
  }

  lemma InnerKeyIsMixed(key: seq<bv32>, nb: nat, r: nat)
    requires Columns(|key|) && Columns(nb) && 0 < r < Rounds(|key|, nb)
    ensures DecRoundKey(key, nb, r) == InvMixColumns(RoundKey(key, nb, Rounds(|key|, nb) - r))
  {
    hide RoundKey, InvMixColumns, Rounds;
  }

  /** The equivalent inverse cipher computes what the inverse cipher does. */
  lemma EquivalentInverse(key: seq<bv32>, nb: nat, s: State)
    requires Columns(|key|) && Columns(nb) && |s| == nb
    ensures EqInvCipher(key, nb, s) == InvCipher(key, nb, s)
  {
    hide RoundKey, InvSubBytes, InvShiftRows, InvMixColumns, AddRoundKey, DecState, InvState;
    var nr := Rounds(|key|, nb);
    DecStateIsInvState(key, nb, s, nr - 1);
    InvSubBytesCommutes(InvState(key, nb, s, nr - 1));
  }

  /** Round by round, decryption walks back through the states of encryption. */
  lemma {:induction false} InvStateRetraces(key: seq<bv32>, nb: nat, s: State, r: nat)
    requires Columns(|key|) && Columns(nb) && |s| == nb && r < Rounds(|key|, nb)
    ensures var nr := Rounds(|key|, nb);
            InvState(key, nb, Cipher(key, nb, s), r) == ShiftRows(SubBytes(EncState(key, nb, s, nr - 1 - r)))
  {
    hide RoundKey, SubBytes, ShiftRows, MixColumns, InvSubBytes, InvShiftRows, InvMixColumns, AddRoundKey, Rounds;
    var nr := Rounds(|key|, nb);
    if r == 0 {
      AddRoundKeyTwice(ShiftRows(SubBytes(EncState(key, nb, s, nr - 1))), RoundKey(key, nb, nr));
    } else {
      var before := EncState(key, nb, s, nr - r - 1);
      InvStateRetraces(key, nb, s, r - 1);
      InvRoundInverts(EncState(key, nb, s, nr - r));
      AddRoundKeyTwice(MixColumns(ShiftRows(SubBytes(before))), RoundKey(key, nb, nr - r));
      InvMixColumnsInverts(ShiftRows(SubBytes(before)));
    }
  }

  lemma InvRoundInverts(s: State)
    requires Columns(|s|)
    ensures InvSubBytes(InvShiftRows(ShiftRows(SubBytes(s)))) == s
  {
    hide SubBytes, ShiftRows, InvSubBytes, InvShiftRows;
    InvShiftRowsInverts(SubBytes(s));
    InvSubBytesInverts(s);
  }

  /** Decryption undoes encryption, for every key, every block and all nine size pairs. */
  lemma DecryptionInverts(key: seq<bv32>, nb: nat, s: State)
    requires Columns(|key|) && Columns(nb) && |s| == nb
    ensures EqInvCipher(key, nb, Cipher(key, nb, s)) == s
  {
    hide RoundKey, SubBytes, ShiftRows, InvSubBytes, InvShiftRows, InvMixColumns, AddRoundKey, InvState, EqInvCipher, Cipher;
    var nr := Rounds(|key|, nb);
    EquivalentInverse(key, nb, Cipher(key, nb, s));
    InvStateRetraces(key, nb, s, nr - 1);
    InvRoundInverts(EncState(key, nb, s, 0));
    AddRoundKeyTwice(s, RoundKey(key, nb, 0));
  }
}
