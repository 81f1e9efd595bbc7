/** What makes a worked example of the cipher for blocks of 16 bytes: key words that follow from those
    before them, states that follow from one another, and a result in bytes. */
module RijndaelSteps {
  import opened Gf256
  import opened RijndaelTables
  import opened RijndaelCipher
  import opened RijndaelBlocks

  /** The key words v come behind the key words w, which are window q of the schedule. */
  predicate WindowFollows(w: State, v: State, q: nat)
    requires Columns(|w|) && |v| == |w| && q < 29
  {
    && v[0] == AddW(w[0], AddW(SubWord(RotWord(w[|w| - 1])), Pack(Rcon(q), 0, 0, 0)))
    && v[1] == AddW(w[1], v[0]) && v[2] == AddW(w[2], v[1]) && v[3] == AddW(w[3], v[2])
    && (|w| > 4 ==> v[4] == AddW(w[4], if |w| > 6 then SubWord(v[3]) else v[3]) && v[5] == AddW(w[5], v[4]))
    && (|w| > 6 ==> v[6] == AddW(w[6], v[5]) && v[7] == AddW(w[7], v[6]))
  }

  lemma WordFollows(w: State, v: State, q: nat, j: nat)
    requires Columns(|w|) && |v| == |w| && q < 29 && WindowFollows(w, v, q) && j < |w|
    ensures v[j] == AddW(w[j], if j == 0 then AddW(SubWord(RotWord(w[|w| - 1])), Pack(Rcon(q), 0, 0, 0))
                               else if |w| > 6 && j == 4 then SubWord(v[j - 1]) else v[j - 1])
  {
    hide AddW, SubWord, RotWord, Pack, Rcon;
  }

  lemma {:induction false} NextWord(key: State, w: State, v: State, q: nat, j: nat)
    requires Columns(|key|) && |v| == |w| == |key| && q < 29 && j < |key|
    requires IsWindow(key, w, q, 0) && WindowFollows(w, v, q)
    ensures At(|key|, q + 1, j) < 30 * |key| && KeyWord(key, At(|key|, q + 1, j)) == v[j]
  {
    hide KeyWord, At, AddW, SubWord, RotWord, Pack, Rcon, WindowFollows, IsWindow;
    WindowHolds(key, w, q, 0, |key| - 1);
    WindowHolds(key, w, q, 0, j);
    WordFollows(w, v, q, j);
    KeyWordStep(key, q, j);
    if j > 0 {
      NextWord(key, w, v, q, j - 1);
    }
  }

  lemma NextWindow(key: State, w: State, v: State, q: nat)
    requires Columns(|key|) && |v| == |w| == |key| && q < 29 && IsWindow(key, w, q, 0) && WindowFollows(w, v, q)
    ensures IsWindow(key, v, q + 1, 0)
  {
    hide KeyWord, At, WindowFollows;
    forall j | 0 <= j < |key|
      ensures WindowWord(|key|, q + 1, 0, j) < 30 * |key| && v[j] == KeyWord(key, WindowWord(|key|, q + 1, 0, j))
    {
      NextWord(key, w, v, q, j);
    }
  }

  /** Word j of two windows. */
  function Both(w: State, v: State, j: nat): bv32
    requires j < |w| + |v|
  {
    if j < |w| then w[j] else v[j - |w|]
  }

  /** A round key is four words of the window it begins in and the next one. */
  lemma RoundKeyOfWindows(key: State, w: State, v: State, q: nat, r: nat, k: State)
    requires Columns(|key|) && |w| == |key| && IsWindow(key, w, q, 0) && r <= Rounds(|key|, 4) && |k| == 4
    requires v == [] || (|v| == |key| && IsWindow(key, v, q + 1, 0))
    requires At(|key|, q, 0) <= At(4, r, 0) && At(4, r, 0) - At(|key|, q, 0) + 4 <= |w| + |v|
    requires forall c | 0 <= c < 4 :: k[c] == Both(w, v, At(4, r, 0) - At(|key|, q, 0) + c)
    ensures RoundKey(key, 4, r) == k
  {
    hide KeyWord, IsWindow;
    var n := |key|;
    forall c | 0 <= c < 4
      ensures RoundKey(key, 4, r)[c] == k[c]
    {
      var j := At(4, r, 0) - At(n, q, 0) + c;
      if j < n {
        WindowHolds(key, w, q, 0, j);
        assert At(n, q, j) == At(4, r, c);
      } else {
        WindowHolds(key, v, q + 1, 0, j - n);
        assert At(n, q + 1, j - n) == At(4, r, c) by { NextRow(n, q); }
      }
    }
  }

  /** Two columns of a round, from the words they look at and their key words. */
  predicate HalfRound(a: bv32, b: bv32, c: bv32, d: bv32, k: bv32, l: bv32, t: bv32, u: bv32) {
    EncryptWord(a, b, c, d, k) == t && EncryptWord(b, c, d, a, l) == u
  }

  lemma NextState(key: State, input: State, r: nat, s: State, k: State, t: State)
    requires Columns(|key|) && |input| == |s| == |k| == |t| == 4 && 0 < r < Rounds(|key|, 4)
    requires EncState(key, 4, input, r - 1) == s && RoundKey(key, 4, r) == k
    requires HalfRound(s[0], s[1], s[2], s[3], k[0], k[1], t[0], t[1]) && HalfRound(s[2], s[3], s[0], s[1], k[2], k[3], t[2], t[3])
    ensures EncState(key, 4, input, r) == t
  {
    hide EncryptWord, AddRoundKey, MixColumns, ShiftRows, SubBytes, RoundKey;
    UnrolledEncryptRound(s, k);
  }

  /** A column of the last round. */
  function LastWord(a: bv32, b: bv32, c: bv32, d: bv32, k: bv32): bv32 {
    AddW(Pack(S(B0(a)), S(B1(b)), S(B2(c)), S(B3(d))), k)
  }

  lemma LastColumn(s: State, k: State, i: nat, i1: nat, i2: nat, i3: nat)
    requires |s| == |k| == 4 && i < 4 && i1 == (i + 1) % 4 && i2 == (i + 2) % 4 && i3 == (i + 3) % 4
    ensures AddRoundKey(ShiftRows(SubBytes(s)), k)[i] == LastWord(s[i], s[i1], s[i2], s[i3], k[i])
  {
    hide AddW, Pack, S, B0, B1, B2, B3, ShiftRows, SubBytes;
    ShiftedSubstitutedColumn(s, i);
  }

  lemma SameState(s: State, t: State)
    requires |s| == |t| == 4 && s[0] == t[0] && s[1] == t[1] && s[2] == t[2] && s[3] == t[3]
    ensures s == t
  {}

  lemma LastState(key: State, input: State, s: State, k: State, t: State)
    requires Columns(|key|) && |input| == |s| == |k| == |t| == 4
    requires EncState(key, 4, input, Rounds(|key|, 4) - 1) == s && RoundKey(key, 4, Rounds(|key|, 4)) == k
    requires t[0] == LastWord(s[0], s[1], s[2], s[3], k[0]) && t[1] == LastWord(s[1], s[2], s[3], s[0], k[1])
    requires t[2] == LastWord(s[2], s[3], s[0], s[1], k[2]) && t[3] == LastWord(s[3], s[0], s[1], s[2], k[3])
    ensures Cipher(key, 4, input) == t
  {
    hide LastWord, AddRoundKey, ShiftRows, SubBytes, RoundKey, EncState;
    LastColumn(s, k, 0, 1, 2, 3);
    LastColumn(s, k, 1, 2, 3, 0);
    LastColumn(s, k, 2, 3, 0, 1);
    LastColumn(s, k, 3, 0, 1, 2);
    SameState(Cipher(key, 4, input), t);
  }

  /** From words to bytes. */
  lemma OnBytes(key: State, input: State, output: State, plain: Bytes, sealed: Bytes)
    requires Columns(|key|) && |input| == |output| == 4 && |plain| == |sealed| == 16
    requires Cipher(key, 4, input) == output && ToWords(plain, 4) == input && ToWords(sealed, 4) == output
    ensures EncryptedBlock(key, 4, plain) == sealed && DecryptedBlock(key, 4, sealed) == plain
  {
    hide ToWords, ToBytes, Cipher, DecryptedBlock;
    BytesOfWords(sealed, 4);
    BlockRoundTrip(key, 4, plain);
  }
}
