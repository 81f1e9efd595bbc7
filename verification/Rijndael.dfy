/** The cipher object: key schedule and block functions over its own arrays. */
module Rijndael {
  import opened Gf256
  import opened RijndaelTables
  import opened RijndaelCipher
  import opened RijndaelBlocks
  import opened BlockModes
  import opened Sequences

  /** How a call ends: normally, or with the text of the exception the source throws. */
  datatype Outcome = Done | Thrown(what: string)

  const NOT_INITIALIZED := "Object not Initialized"
  const NOT_MULTIPLE := "Data not multiple of Block Size"
  const MAX_ROUNDS := 14
  const MAX_COLUMNS := 8
  const MAX_BLOCK_SIZE := 32

  /** The key argument: a pointer that may be null. */
  datatype KeyPointer = Null | Key(bytes: Bytes)

  predicate LegalSize(n: nat) { n == 16 || n == 24 || n == 32 }

  class CRijndael {
    var m_bKeyInit: bool
    const m_Ke: array2<bv32>
    const m_Kd: array2<bv32>
    var m_keylength: nat
    var m_blockSize: nat
    var m_iROUNDS: nat
    const m_chain0: array<bv8>
    const m_chain: array<bv8>
    const tk: array<bv32>
    const a: array<bv32>
    const t: array<bv32>

    /** The key the schedule was made from, as words. */
    ghost var key: State

    ghost predicate Shaped()
    {
      && m_Ke.Length0 == m_Kd.Length0 == MAX_ROUNDS + 1 && m_Ke.Length1 == m_Kd.Length1 == MAX_COLUMNS
      && m_Ke != m_Kd
      && tk.Length == a.Length == t.Length == MAX_COLUMNS && tk != a && tk != t && a != t
      && m_chain0.Length == m_chain.Length == MAX_BLOCK_SIZE && m_chain0 != m_chain
    }

    ghost predicate Sized()
      reads `m_keylength, `m_blockSize, `m_iROUNDS, `key
    {
      && LegalSize(m_keylength) && LegalSize(m_blockSize)
      && |key| == m_keylength / 4
      && m_iROUNDS == Rounds(m_keylength / 4, m_blockSize / 4) <= MAX_ROUNDS
    }

    /** Both schedules hold the round keys of the two ciphers for the key. */
    ghost predicate Scheduled()
      requires Shaped() && Sized()
      reads `m_keylength, `m_blockSize, `m_iROUNDS, `key, m_Ke, m_Kd
    {
      forall r, c | 0 <= r <= m_iROUNDS && 0 <= c < m_blockSize / 4 ::
        m_Ke[r, c] == RoundKey(key, m_blockSize / 4, r)[c] && m_Kd[r, c] == DecRoundKey(key, m_blockSize / 4, r)[c]
    }

    ghost predicate Valid()
      reads this, m_Ke, m_Kd
    {
      && Shaped()
      && (m_bKeyInit ==> Sized() && Scheduled())
    }

    constructor ()
      ensures Valid() && !m_bKeyInit
      ensures fresh(m_Ke) && fresh(m_Kd) && fresh(m_chain0) && fresh(m_chain) && fresh(tk) && fresh(a) && fresh(t)
    {
      m_bKeyInit := false;
      m_Ke, m_Kd := new bv32[MAX_ROUNDS + 1, MAX_COLUMNS], new bv32[MAX_ROUNDS + 1, MAX_COLUMNS];
      m_chain0, m_chain := new bv8[MAX_BLOCK_SIZE], new bv8[MAX_BLOCK_SIZE];
      tk, a, t := new bv32[MAX_COLUMNS], new bv32[MAX_COLUMNS], new bv32[MAX_COLUMNS];
      m_keylength, m_blockSize, m_iROUNDS := 0, 0, 0;
      key := [];
    }

    // ---------------------------------------------------------------- key schedule

    /** The window tk holds words q * KC .. of the expanded key, its first m columns already one window on. */
    ghost predicate Window(q: nat, m: nat)
      requires Shaped() && Sized()
      reads `m_keylength, `m_blockSize, `m_iROUNDS, `key, tk
    {
      IsWindow(key, tk[..], q, m)
    }

    /** The first n words of the expanded key are in place: forwards in m_Ke, by rows backwards in m_Kd. */
    ghost predicate Filled(n: nat)
      requires Shaped() && Sized()
      reads `m_keylength, `m_blockSize, `m_iROUNDS, `key, m_Ke, m_Kd
    {
      forall r, c | 0 <= r <= m_iROUNDS && 0 <= c < m_blockSize / 4 && At(m_blockSize / 4, r, c) < n ::
        && At(m_blockSize / 4, r, c) < 30 * |key|
        && m_Ke[r, c] == KeyWord(key, At(m_blockSize / 4, r, c))
        && m_Kd[m_iROUNDS - r, c] == KeyWord(key, At(m_blockSize / 4, r, c))
    }

    /** The number of words in a schedule. */
    ghost function Count(): nat
      reads `m_iROUNDS, `m_blockSize
    {
      (m_iROUNDS + 1) * (m_blockSize / 4)
    }

    method LoadKey(bytes: Bytes)
      requires Shaped() && Sized() && |bytes| >= m_keylength && key == ToWords(bytes[..m_keylength], m_keylength / 4)
      modifies tk
      ensures Window(0, 0)
    {
      hide Pack;
      var i := 0;
      while i < m_keylength / 4
        invariant 0 <= i <= m_keylength / 4
        invariant forall j | 0 <= j < i :: tk[j] == key[j]
      {
        tk[i] := Pack(bytes[4 * i], bytes[4 * i + 1], bytes[4 * i + 2], bytes[4 * i + 3]);
        i := i + 1;
      }
      FirstWindow(key, tk[..]);
    }

    /** tk[i] ^= tk[i - 1] for the columns from..to, none of which takes the extra substitution. */
    method Ripple(q: nat, from: nat, to: nat)
      requires Shaped() && Sized() && q < 29 && 1 <= from <= to <= |key| && Window(q, from)
      requires |key| == 8 ==> to <= 4 || 4 < from
      modifies tk
      ensures Window(q, to)
    {
      hide AddW, KeyWord, At, IsWindow;
      var i := from;
      while i < to
        invariant from <= i <= to && Window(q, i)
      {
        ghost var before := tk[..];
        WindowHolds(key, before, q, i, i);
        WindowHolds(key, before, q, i, i - 1);
        KeyWordStep(key, q, i);
        tk[i] := AddW(tk[i], tk[i - 1]);
        assert tk[..] == before[i := tk[i]];
        WindowAdvances(key, before, q, i, tk[i]);
        i := i + 1;
      }
    }

    /** The first column of the next window takes a rotated substitution and the round constant. */
    method FirstColumn(q: nat)
      requires Shaped() && Sized() && q < 29 && Window(q, 0)
      modifies tk
      ensures Window(q, 1)
    {
      hide AddW, KeyWord, Pack, S, B0, B1, B2, B3, Rcon, At, IsWindow;
      ghost var before := tk[..];
      WindowHolds(key, before, q, 0, 0);
      WindowHolds(key, before, q, 0, |key| - 1);
      KeyWordStep(key, q, 0);
      var tt := tk[m_keylength / 4 - 1];
      assert SubWord(RotWord(tt)) == Pack(S(B1(tt)), S(B2(tt)), S(B3(tt)), S(B0(tt))) by {
        BytesOfPack(B1(tt), B2(tt), B3(tt), B0(tt));
      }
      tk[0] := AddW(tk[0], AddW(Pack(S(B1(tt)), S(B2(tt)), S(B3(tt)), S(B0(tt))), Pack(Rcon(q), 0, 0, 0)));
      assert tk[..] == before[0 := tk[0]];
      WindowAdvances(key, before, q, 0, tk[0]);
    }

    /** For 32-byte keys the fifth column takes a substitution too. */
    method FifthColumn(q: nat)
      requires Shaped() && Sized() && q < 29 && |key| == 8 && Window(q, 4)
      modifies tk
      ensures Window(q, 5)
    {
      hide AddW, KeyWord, Pack, S, B0, B1, B2, B3, At, IsWindow;
      ghost var before := tk[..];
      WindowHolds(key, before, q, 4, 4);
      WindowHolds(key, before, q, 4, 3);
      KeyWordStep(key, q, 4);
      var tt := tk[3];
      tk[4] := AddW(tk[4], Pack(S(B0(tt)), S(B1(tt)), S(B2(tt)), S(B3(tt))));
      assert tk[..] == before[4 := tk[4]];
      WindowAdvances(key, before, q, 4, tk[4]);
    }

    /** The round key evolution function: the window moves on in place. */
    method Evolve(rconpointer: nat)
      requires Shaped() && Sized() && rconpointer < 29 && Window(rconpointer, 0)
      modifies tk
      ensures Window(rconpointer + 1, 0)
    {
      hide KeyWord, IsWindow;
      var KC := m_keylength / 4;
      FirstColumn(rconpointer);
      if KC != 8 {
        Ripple(rconpointer, 1, KC);
      } else {
        Ripple(rconpointer, 1, KC / 2);
        FifthColumn(rconpointer);
        Ripple(rconpointer, KC / 2 + 1, KC);
      }
      WindowTurns(key, tk[..], rconpointer);
    }

    /** Copies the window into both schedules, up to their end. */
    method CopyWindow(q: nat, t: nat) returns (u: nat)
      requires Shaped() && Sized() && Window(q, 0) && Filled(t)
      requires t == At(|key|, q, 0) < Count()
      modifies m_Ke, m_Kd
      ensures Filled(u)
      ensures u == At(|key|, q + 1, 0) <= Count() || u == Count() < At(|key|, q + 1, 0)
    {
      hide KeyWord, Rounds, Filled, At, IsWindow;
      ScheduleFits(|key|, m_blockSize / 4);
      NextRow(|key|, q);
      u := t;
      var j := 0;
      while j < m_keylength / 4 && u < (m_iROUNDS + 1) * (m_blockSize / 4)
        invariant 0 <= j <= |key| && u == t + j <= Count()
        invariant Filled(u)
      {
        WithinRow(|key|, q, j);
        WindowHolds(key, tk[..], q, 0, j);
        PutWord(u, tk[j]);
        j, u := j + 1, u + 1;
      }
    }

    /** A word goes to its cell of m_Ke and to the mirrored row of m_Kd. */
    method StoreWord(r0: nat, c0: nat, w: bv32)
      requires Shaped() && Sized() && r0 <= m_iROUNDS && c0 < m_blockSize / 4
      modifies m_Ke, m_Kd
      ensures m_Ke[r0, c0] == w && m_Kd[m_iROUNDS - r0, c0] == w
      ensures forall r, c | 0 <= r <= m_iROUNDS && 0 <= c < m_blockSize / 4 && (r != r0 || c != c0) ::
                m_Ke[r, c] == old(m_Ke[r, c]) && m_Kd[m_iROUNDS - r, c] == old(m_Kd[m_iROUNDS - r, c])
    {
      m_Ke[r0, c0] := w;
      m_Kd[m_iROUNDS - r0, c0] := w;
    }

    /** Word n joins the n words before it. */
    method PutWord(n: nat, w: bv32)
      requires Shaped() && Sized() && Filled(n)
      requires n < Count() && n < 30 * |key| && w == KeyWord(key, n)
      modifies m_Ke, m_Kd
      ensures Filled(n + 1)
    {
      hide KeyWord, Rounds, At, Count;
      var BC := m_blockSize / 4;
      CellInSchedule(n);
      OneCell(BC, n);
      hide LegalSize, Columns;
      StoreWord(n / BC, n % BC, w);
    }

    lemma CellInSchedule(n: nat)
      requires Shaped() && Sized() && n < Count()
      ensures var BC := m_blockSize / 4; n / BC <= m_iROUNDS && n % BC < BC
    {
      RowOfWord(|key|, m_blockSize / 4, n);
      CellOfWord(m_blockSize / 4, n, 0, 0);
    }

    /** The whole schedule before the inverse mixing. */
    method FillSchedule(bytes: Bytes)
      requires Shaped() && Sized() && |bytes| >= m_keylength && key == ToWords(bytes[..m_keylength], m_keylength / 4)
      modifies tk, m_Ke, m_Kd
      ensures Filled(Count())
    {
      hide KeyWord, Rounds, Filled, At, Window, ToWords;
      var ROUND_KEY_COUNT := (m_iROUNDS + 1) * (m_blockSize / 4);
      ScheduleFits(|key|, m_blockSize / 4);
      assert ROUND_KEY_COUNT == Count();
      hide Count;
      LoadKey(bytes);
      NothingFilled();
      var t: nat := CopyWindow(0, 0);
      var rconpointer := 0;
      while t < ROUND_KEY_COUNT
        invariant Window(rconpointer, 0) && Filled(t) && t <= ROUND_KEY_COUNT == Count()
        invariant t == At(|key|, rconpointer + 1, 0) || t == ROUND_KEY_COUNT
        decreases 30 - rconpointer
      {
        WindowsLeft(|key|, rconpointer, ROUND_KEY_COUNT);
        Evolve(rconpointer);
        rconpointer := rconpointer + 1;
        t := CopyWindow(rconpointer, t);
      }
    }

    lemma NothingFilled()
      requires Shaped() && Sized()
      ensures Filled(0) && At(|key|, 0, 0) == 0 < Count()
    {}

    /** Row p of m_Kd when the rows above r have been mixed backwards. */
    ghost function PartlyMixed(r: nat, p: nat): (k: State)
      requires Sized() && p <= m_iROUNDS
      reads `m_keylength, `m_blockSize, `m_iROUNDS, `key
      ensures |k| == m_blockSize / 4
    {
      if 1 <= p < r then DecRoundKey(key, m_blockSize / 4, p) else RoundKey(key, m_blockSize / 4, m_iROUNDS - p)
    }

    /** The rows of m_Kd above row r (and the outer two) are final, the others still unmixed. */
    ghost predicate MixedBelow(r: nat)
      requires Shaped() && Sized()
      reads `m_keylength, `m_blockSize, `m_iROUNDS, `key, m_Ke, m_Kd
    {
      forall p, c | 0 <= p <= m_iROUNDS && 0 <= c < m_blockSize / 4 ::
        && m_Ke[p, c] == RoundKey(key, m_blockSize / 4, p)[c]
        && m_Kd[p, c] == PartlyMixed(r, p)[c]
    }

    lemma FilledIsUnmixed()
      requires Shaped() && Sized() && Filled(Count())
      ensures MixedBelow(1)
    {
      hide KeyWord, DecRoundKey, Rounds, At;
      var BC := m_blockSize / 4;
      forall p, c | 0 <= p <= m_iROUNDS && 0 <= c < BC
        ensures m_Ke[p, c] == RoundKey(key, BC, p)[c] && m_Kd[p, c] == RoundKey(key, BC, m_iROUNDS - p)[c]
      {
        ScheduleIndex(|key|, BC, p, c);
        ScheduleIndex(|key|, BC, m_iROUNDS - p, c);
      }
    }

    /** Inverse MixColumn on all rows of m_Kd but the outer two. */
    method InverseMix()
      requires Shaped() && Sized() && MixedBelow(1)
      modifies m_Kd
      ensures Scheduled()
    {
      hide KeyWord, RoundKey, DecRoundKey, InvMixColumn;
      var r := 1;
      while r < m_iROUNDS
        invariant 1 <= r <= m_iROUNDS && MixedBelow(r)
      {
        InverseMixRow(r);
        forall c | 0 <= c < m_blockSize / 4
          ensures m_Kd[r, c] == DecRoundKey(key, m_blockSize / 4, r)[c]
        {
          MixedColumn(key, m_blockSize / 4, r, c);
        }
        r := r + 1;
      }
      OuterRows();
    }

    lemma OuterRows()
      requires Shaped() && Sized() && MixedBelow(m_iROUNDS)
      ensures Scheduled()
    {
      hide KeyWord, RoundKey;
    }

    /** One row; what it means for the schedule is the caller's argument. */
    method InverseMixRow(r: nat)
      requires Shaped() && Sized() && r <= m_iROUNDS
      modifies m_Kd
      ensures forall c | 0 <= c < m_blockSize / 4 :: m_Kd[r, c] == InvMixColumn(old(m_Kd[r, c]))
      ensures forall p, c | 0 <= p <= MAX_ROUNDS && 0 <= c < MAX_COLUMNS && p != r :: m_Kd[p, c] == old(m_Kd[p, c])
    {
      hide U1, U2, U3, U4, Sum4, B0, B1, B2, B3, Pack, InvMixColumn, Rounds;
      var j := 0;
      while j < m_blockSize / 4
        invariant 0 <= j <= m_blockSize / 4
        invariant forall c | 0 <= c < j :: m_Kd[r, c] == InvMixColumn(old(m_Kd[r, c]))
        invariant forall p, c | 0 <= p <= MAX_ROUNDS && 0 <= c < MAX_COLUMNS && (p != r || j <= c) :: m_Kd[p, c] == old(m_Kd[p, c])
      {
        var tt := m_Kd[r, j];
        InverseMixLookup(B0(tt), B1(tt), B2(tt), B3(tt));
        PackOfBytes(tt);
        m_Kd[r, j] := Sum4(U1(B0(tt)), U2(B1(tt)), U3(B2(tt)), U4(B3(tt)));
        j := j + 1;
      }
    }

    /** The memcpy of the initial chain. */
    method CopyChain(dest: array<bv8>, chain: Bytes, n: nat)
      requires n <= dest.Length && n <= |chain|
      modifies dest
      ensures dest[..n] == chain[..n]
    {
      var i := 0;
      while i < n
        invariant 0 <= i <= n && dest[..i] == chain[..i]
      {
        dest[i] := chain[i];
        i := i + 1;
      }
    }

    /** Expands key material into both schedules. A call that throws changes nothing. */
    method MakeKey(material: KeyPointer, chain: Bytes, keylength: nat, blockSize: nat) returns (o: Outcome)
      requires Valid()
      requires LegalSize(keylength) && material.Key? ==> |material.bytes| >= keylength
      requires LegalSize(blockSize) ==> |chain| >= blockSize
      modifies this, m_Ke, m_Kd, m_chain0, m_chain, tk
      ensures Valid()
      ensures o == if material.Null? then Thrown("Empty key")
                   else if !LegalSize(keylength) then Thrown("Incorrect key length")
                   else if !LegalSize(blockSize) then Thrown("Incorrect block length")
                   else Done
      ensures o.Thrown? ==> unchanged(this, m_Ke, m_Kd, m_chain0, m_chain, tk)
      ensures o.Done? ==> m_bKeyInit && m_keylength == keylength && m_blockSize == blockSize
                          && key == ToWords(material.bytes[..keylength], keylength / 4)
                          && m_chain[..blockSize] == m_chain0[..blockSize] == chain[..blockSize]
    {
      hide Scheduled, ToWords, Rounds;
      if material.Null? {
        return Thrown("Empty key");
      }
      if !LegalSize(keylength) {
        return Thrown("Incorrect key length");
      }
      if !LegalSize(blockSize) {
        return Thrown("Incorrect block length");
      }
      m_keylength, m_blockSize := keylength, blockSize;
      CopyChain(m_chain0, chain, m_blockSize);
      CopyChain(m_chain, chain, m_blockSize);
      MakeSchedules(material.bytes);
      m_bKeyInit := true;
      o := Done;
    }

    method MakeSchedules(bytes: Bytes)
      requires Shaped() && LegalSize(m_keylength) && LegalSize(m_blockSize) && |bytes| >= m_keylength
      modifies `m_iROUNDS, `key, m_Ke, m_Kd, tk
      ensures Sized() && Scheduled() && key == ToWords(bytes[..m_keylength], m_keylength / 4)
    {
      hide KeyWord, RoundKey, DecRoundKey, ToWords, Scheduled, Filled, MixedBelow, Window;
      if m_keylength == 16 {
        m_iROUNDS := if m_blockSize == 16 then 10 else if m_blockSize == 24 then 12 else 14;
      } else if m_keylength == 24 {
        m_iROUNDS := if m_blockSize != 32 then 12 else 14;
      } else {
        m_iROUNDS := 14;
      }
      key := ToWords(bytes[..m_keylength], m_keylength / 4);
      FillSchedule(bytes);
      FilledIsUnmixed();
      InverseMix();
    }

    /** The first step of both ciphers: pack the block into columns and add the round key of row 0. */
    method LoadBlock(inp: Bytes, keys: array2<bv32>, ghost k: State)
      requires Shaped() && Sized() && |inp| == m_blockSize
      requires keys.Length0 == MAX_ROUNDS + 1 && keys.Length1 == MAX_COLUMNS
      requires |k| == m_blockSize / 4 && forall c | 0 <= c < |k| :: keys[0, c] == k[c]
      modifies t
      ensures t[..m_blockSize / 4] == AddRoundKey(ToWords(inp, m_blockSize / 4), k)
    {
      hide Pack, AddW;
      var i := 0;
      while i < m_blockSize / 4
        invariant 0 <= i <= m_blockSize / 4
        invariant forall c | 0 <= c < i :: t[c] == AddW(ToWords(inp, m_blockSize / 4)[c], k[c])
      {
        t[i] := AddW(Pack(inp[4 * i], inp[4 * i + 1], inp[4 * i + 2], inp[4 * i + 3]), keys[0, i]);
        i := i + 1;
      }
    }

    /** The memcpy of a over t. */
    method CopyColumns(n: nat)
      requires Shaped() && n <= MAX_COLUMNS
      modifies t
      ensures t[..n] == a[..n]
    {
      var i := 0;
      while i < n
        invariant 0 <= i <= n && t[..i] == a[..i]
      {
        t[i] := a[i];
        i := i + 1;
      }
    }

    /** The four stores of column i of the result; the first i columns are already in place. */
    method StoreColumn(result: array<bv8>, off: nat, i: nat, b0: bv8, b1: bv8, b2: bv8, b3: bv8,
                       ghost before: Bytes, ghost last: State)
      requires Storing(before, result[..], off, last, i) && i < |last|
      requires b0 == B0(last[i]) && b1 == B1(last[i]) && b2 == B2(last[i]) && b3 == B3(last[i])
      modifies result
      ensures Storing(before, result[..], off, last, i + 1)
    {
      hide B0, B1, B2, B3;
      result[off + 4 * i] := b0;
      result[off + 4 * i + 1] := b1;
      result[off + 4 * i + 2] := b2;
      result[off + 4 * i + 3] := b3;
    }

    /** Row r of both schedules, where the definition of the whole is not needed. */
    lemma ScheduledRow(r: nat)
      requires Shaped() && Sized() && Scheduled() && r <= m_iROUNDS
      ensures forall c | 0 <= c < m_blockSize / 4 ::
                m_Ke[r, c] == RoundKey(key, m_blockSize / 4, r)[c] && m_Kd[r, c] == DecRoundKey(key, m_blockSize / 4, r)[c]
    {}

    /** Column i of round r: four lookups and the round key. */
    method EncryptColumn(r: nat, i: nat, ghost s: State) returns (w: bv32)
      requires Shaped() && Sized() && Scheduled() && r <= m_iROUNDS
      requires |s| == m_blockSize / 4 && t[..m_blockSize / 4] == s && i < |s|
      ensures w == AddRoundKey(MixColumns(ShiftRows(SubBytes(s))), RoundKey(key, m_blockSize / 4, r))[i]
    {
      hide T1, T2, T3, T4, B0, B1, B2, B3, AddW, Sum4, AddRoundKey, MixColumns, ShiftRows, SubBytes, RoundKey, DecRoundKey, Shift;
      var BC := m_blockSize / 4;
      var s1, s2, s3 := Shift(BC, 1), Shift(BC, 2), Shift(BC, 3);
      w := AddW(Sum4(T1(B0(t[i])), T2(B1(t[(i + s1) % BC])), T3(B2(t[(i + s2) % BC])), T4(B3(t[(i + s3) % BC]))), m_Ke[r, i]);
      EncryptRoundColumn(s, RoundKey(key, BC, r), i);
    }

    /** One full round: lookups from t into a, then a copied back over t. */
    method EncryptRound(r: nat, ghost s: State)
      requires Shaped() && Sized() && Scheduled() && r <= m_iROUNDS
      requires |s| == m_blockSize / 4 && t[..m_blockSize / 4] == s
      modifies t, a
      ensures t[..m_blockSize / 4] == AddRoundKey(MixColumns(ShiftRows(SubBytes(s))), RoundKey(key, m_blockSize / 4, r))
    {
      hide AddRoundKey, MixColumns, ShiftRows, SubBytes, RoundKey, DecRoundKey, Scheduled;
      var BC := m_blockSize / 4;
      ghost var next := AddRoundKey(MixColumns(ShiftRows(SubBytes(s))), RoundKey(key, BC, r));
      var i := 0;
      while i < BC
        invariant 0 <= i <= BC && t[..BC] == s && Scheduled()
        invariant forall c | 0 <= c < i :: a[c] == next[c]
      {
        var w := EncryptColumn(r, i, s);
        a[i] := w;
        i := i + 1;
      }
      CopyColumns(BC);
      assert t[..BC] == next;
    }

    /** All rounds between the first key addition and the last round. */
    method EncryptRounds(ghost s: State)
      requires Shaped() && Sized() && Scheduled() && |s| == m_blockSize / 4
      requires t[..m_blockSize / 4] == EncState(key, m_blockSize / 4, s, 0)
      modifies t, a
      ensures t[..m_blockSize / 4] == EncState(key, m_blockSize / 4, s, m_iROUNDS - 1)
    {
      hide AddRoundKey, MixColumns, ShiftRows, SubBytes, RoundKey, DecRoundKey, Scheduled;
      var BC := m_blockSize / 4;
      var r := 1;
      while r < m_iROUNDS
        invariant 1 <= r <= m_iROUNDS && Scheduled()
        invariant t[..BC] == EncState(key, BC, s, r - 1)
      {
        EncryptRound(r, EncState(key, BC, s, r - 1));
        r := r + 1;
      }
    }

    /** The four bytes of column i in the last round, which does not mix. */
    method EncryptLastBytes(i: nat, ghost s: State) returns (b0: bv8, b1: bv8, b2: bv8, b3: bv8)
      requires Shaped() && Sized() && Scheduled()
      requires |s| == m_blockSize / 4 && t[..m_blockSize / 4] == s && i < |s|
      ensures var w := AddRoundKey(ShiftRows(SubBytes(s)), RoundKey(key, m_blockSize / 4, m_iROUNDS))[i];
              b0 == B0(w) && b1 == B1(w) && b2 == B2(w) && b3 == B3(w)
    {
      hide S, B0, B1, B2, B3, Add, AddRoundKey, AddRoundKey, ShiftRows, SubBytes, RoundKey, DecRoundKey, Shift;
      var BC := m_blockSize / 4;
      var s1, s2, s3 := Shift(BC, 1), Shift(BC, 2), Shift(BC, 3);
      var tt := m_Ke[m_iROUNDS, i];
      EncryptLastColumn(s, RoundKey(key, BC, m_iROUNDS), i);
      b0 := Add(S(B0(t[i])), B0(tt));
      b1 := Add(S(B1(t[(i + s1) % BC])), B1(tt));
      b2 := Add(S(B2(t[(i + s2) % BC])), B2(tt));
      b3 := Add(S(B3(t[(i + s3) % BC])), B3(tt));
    }

    method EncryptLast(result: array<bv8>, off: nat, ghost s: State)
      requires Shaped() && Sized() && Scheduled()
      requires |s| == m_blockSize / 4 && t[..m_blockSize / 4] == s && off + m_blockSize <= result.Length
      modifies result
      ensures result[..] == Splice(old(result[..]), off,
                ToBytes(AddRoundKey(ShiftRows(SubBytes(s)), RoundKey(key, m_blockSize / 4, m_iROUNDS))))
    {
      hide B0, B1, B2, B3, Scheduled, AddRoundKey, ShiftRows, SubBytes, RoundKey, DecRoundKey, Splice, ToBytes, Storing;
      var BC := m_blockSize / 4;
      ghost var last := AddRoundKey(ShiftRows(SubBytes(s)), RoundKey(key, BC, m_iROUNDS));
      NothingStored(result[..], off, last);
      var i := 0;
      while i < BC
        invariant 0 <= i <= BC && Scheduled() && t[..BC] == s
        invariant Storing(old(result[..]), result[..], off, last, i)
      {
        var b0, b1, b2, b3 := EncryptLastBytes(i, s);
        StoreColumn(result, off, i, b0, b1, b2, b3, old(result[..]), last);
        i := i + 1;
      }
      StoredIsSplice(old(result[..]), result[..], off, last);
    }

    /** Column i of round r: four lookups and the round key. */
    method DecryptColumn(r: nat, i: nat, ghost s: State) returns (w: bv32)
      requires Shaped() && Sized() && Scheduled() && r <= m_iROUNDS
      requires |s| == m_blockSize / 4 && t[..m_blockSize / 4] == s && i < |s|
      ensures w == AddRoundKey(InvMixColumns(InvShiftRows(InvSubBytes(s))), DecRoundKey(key, m_blockSize / 4, r))[i]
    {
      hide T5, T6, T7, T8, B0, B1, B2, B3, AddW, Sum4, AddRoundKey, InvMixColumns, InvShiftRows, InvSubBytes, RoundKey, DecRoundKey, InvShift;
      var BC := m_blockSize / 4;
      var s1, s2, s3 := InvShift(BC, 1), InvShift(BC, 2), InvShift(BC, 3);
      w := AddW(Sum4(T5(B0(t[i])), T6(B1(t[(i + s1) % BC])), T7(B2(t[(i + s2) % BC])), T8(B3(t[(i + s3) % BC]))), m_Kd[r, i]);
      DecryptRoundColumn(s, DecRoundKey(key, BC, r), i);
    }

    /** One full round: lookups from t into a, then a copied back over t. */
    method DecryptRound(r: nat, ghost s: State)
      requires Shaped() && Sized() && Scheduled() && r <= m_iROUNDS
      requires |s| == m_blockSize / 4 && t[..m_blockSize / 4] == s
      modifies t, a
      ensures t[..m_blockSize / 4] == AddRoundKey(InvMixColumns(InvShiftRows(InvSubBytes(s))), DecRoundKey(key, m_blockSize / 4, r))
    {
      hide AddRoundKey, InvMixColumns, InvShiftRows, InvSubBytes, RoundKey, DecRoundKey, Scheduled;
      var BC := m_blockSize / 4;
      ghost var next := AddRoundKey(InvMixColumns(InvShiftRows(InvSubBytes(s))), DecRoundKey(key, BC, r));
      var i := 0;
      while i < BC
        invariant 0 <= i <= BC && t[..BC] == s && Scheduled()
        invariant forall c | 0 <= c < i :: a[c] == next[c]
      {
        var w := DecryptColumn(r, i, s);
        a[i] := w;
        i := i + 1;
      }
      CopyColumns(BC);
      assert t[..BC] == next;
    }

    /** All rounds between the first key addition and the last round. */
    method DecryptRounds(ghost s: State)
      requires Shaped() && Sized() && Scheduled() && |s| == m_blockSize / 4
      requires t[..m_blockSize / 4] == DecState(key, m_blockSize / 4, s, 0)
      modifies t, a
      ensures t[..m_blockSize / 4] == DecState(key, m_blockSize / 4, s, m_iROUNDS - 1)
    {
      hide AddRoundKey, InvMixColumns, InvShiftRows, InvSubBytes, RoundKey, DecRoundKey, Scheduled;
      var BC := m_blockSize / 4;
      var r := 1;
      while r < m_iROUNDS
        invariant 1 <= r <= m_iROUNDS && Scheduled()
        invariant t[..BC] == DecState(key, BC, s, r - 1)
      {
        DecryptRound(r, DecState(key, BC, s, r - 1));
        r := r + 1;
      }
    }

    /** The four bytes of column i in the last round, which does not mix. */
    method DecryptLastBytes(i: nat, ghost s: State) returns (b0: bv8, b1: bv8, b2: bv8, b3: bv8)
      requires Shaped() && Sized() && Scheduled()
      requires |s| == m_blockSize / 4 && t[..m_blockSize / 4] == s && i < |s|
      ensures var w := AddRoundKey(InvShiftRows(InvSubBytes(s)), DecRoundKey(key, m_blockSize / 4, m_iROUNDS))[i];
              b0 == B0(w) && b1 == B1(w) && b2 == B2(w) && b3 == B3(w)
    {
      hide Si, B0, B1, B2, B3, Add, AddRoundKey, AddRoundKey, InvShiftRows, InvSubBytes, RoundKey, DecRoundKey, InvShift;
      var BC := m_blockSize / 4;
      var s1, s2, s3 := InvShift(BC, 1), InvShift(BC, 2), InvShift(BC, 3);
      var tt := m_Kd[m_iROUNDS, i];
      DecryptLastColumn(s, DecRoundKey(key, BC, m_iROUNDS), i);
      b0 := Add(Si(B0(t[i])), B0(tt));
      b1 := Add(Si(B1(t[(i + s1) % BC])), B1(tt));
      b2 := Add(Si(B2(t[(i + s2) % BC])), B2(tt));
      b3 := Add(Si(B3(t[(i + s3) % BC])), B3(tt));
    }

    method DecryptLast(result: array<bv8>, off: nat, ghost s: State)
      requires Shaped() && Sized() && Scheduled()
      requires |s| == m_blockSize / 4 && t[..m_blockSize / 4] == s && off + m_blockSize <= result.Length
      modifies result
      ensures result[..] == Splice(old(result[..]), off,
                ToBytes(AddRoundKey(InvShiftRows(InvSubBytes(s)), DecRoundKey(key, m_blockSize / 4, m_iROUNDS))))
    {
      hide B0, B1, B2, B3, Scheduled, AddRoundKey, InvShiftRows, InvSubBytes, RoundKey, DecRoundKey, Splice, ToBytes, Storing;
      var BC := m_blockSize / 4;
      ghost var last := AddRoundKey(InvShiftRows(InvSubBytes(s)), DecRoundKey(key, BC, m_iROUNDS));
      NothingStored(result[..], off, last);
      var i := 0;
      while i < BC
        invariant 0 <= i <= BC && Scheduled() && t[..BC] == s
        invariant Storing(old(result[..]), result[..], off, last, i)
      {
        var b0, b1, b2, b3 := DecryptLastBytes(i, s);
        StoreColumn(result, off, i, b0, b1, b2, b3, old(result[..]), last);
        i := i + 1;
      }
      StoredIsSplice(old(result[..]), result[..], off, last);
    }

    /** The four column variables of the unrolled path after the first key addition. */
    method DefEncryptLoad(inp: Bytes) returns (t0: bv32, t1: bv32, t2: bv32, t3: bv32)
      requires Shaped() && Sized() && Scheduled() && m_blockSize == 16 && |inp| == 16
      ensures [t0, t1, t2, t3] == EncState(key, 4, ToWords(inp, 4), 0)
    {
      hide Pack, AddW, KeyWord, RoundKey, DecRoundKey;
      t0 := AddW(Pack(inp[0], inp[1], inp[2], inp[3]), m_Ke[0, 0]);
      t1 := AddW(Pack(inp[4], inp[5], inp[6], inp[7]), m_Ke[0, 1]);
      t2 := AddW(Pack(inp[8], inp[9], inp[10], inp[11]), m_Ke[0, 2]);
      t3 := AddW(Pack(inp[12], inp[13], inp[14], inp[15]), m_Ke[0, 3]);
    }

    /** One unrolled round. */
    method DefEncryptRound(r: nat, t0: bv32, t1: bv32, t2: bv32, t3: bv32) returns (a0: bv32, a1: bv32, a2: bv32, a3: bv32)
      requires Shaped() && Sized() && Scheduled() && m_blockSize == 16 && r <= m_iROUNDS
      ensures var u := [t0, t1, t2, t3];
              [a0, a1, a2, a3] == AddRoundKey(MixColumns(ShiftRows(SubBytes(u))), RoundKey(key, 4, r))
    {
      hide T1, T2, T3, T4, Sum4, AddW, B0, B1, B2, B3, AddRoundKey, MixColumns, ShiftRows, SubBytes, RoundKey, DecRoundKey;
      a0 := AddW(Sum4(T1(B0(t0)), T2(B1(t1)), T3(B2(t2)), T4(B3(t3))), m_Ke[r, 0]);
      a1 := AddW(Sum4(T1(B0(t1)), T2(B1(t2)), T3(B2(t3)), T4(B3(t0))), m_Ke[r, 1]);
      a2 := AddW(Sum4(T1(B0(t2)), T2(B1(t3)), T3(B2(t0)), T4(B3(t1))), m_Ke[r, 2]);
      a3 := AddW(Sum4(T1(B0(t3)), T2(B1(t0)), T3(B2(t1)), T4(B3(t2))), m_Ke[r, 3]);
      UnrolledEncryptRound([t0, t1, t2, t3], RoundKey(key, 4, r));
    }

    method DefEncryptRounds(ghost s: State, u0: bv32, u1: bv32, u2: bv32, u3: bv32) returns (t0: bv32, t1: bv32, t2: bv32, t3: bv32)
      requires Shaped() && Sized() && Scheduled() && m_blockSize == 16 && |s| == 4
      requires [u0, u1, u2, u3] == EncState(key, 4, s, 0)
      ensures [t0, t1, t2, t3] == EncState(key, 4, s, m_iROUNDS - 1)
    {
      hide AddRoundKey, MixColumns, ShiftRows, SubBytes, RoundKey, DecRoundKey, Scheduled;
      t0, t1, t2, t3 := u0, u1, u2, u3;
      var r := 1;
      while r < m_iROUNDS
        invariant 1 <= r <= m_iROUNDS
        invariant [t0, t1, t2, t3] == EncState(key, 4, s, r - 1)
      {
        t0, t1, t2, t3 := DefEncryptRound(r, t0, t1, t2, t3);
        r := r + 1;
      }
    }

    /** The sixteen stores of the last round. */
    method DefEncryptLast(result: array<bv8>, off: nat, t0: bv32, t1: bv32, t2: bv32, t3: bv32)
      requires Shaped() && Sized() && Scheduled() && m_blockSize == 16 && off + 16 <= result.Length
      modifies result
      ensures var u := [t0, t1, t2, t3];
              result[..] == Splice(old(result[..]), off, ToBytes(AddRoundKey(ShiftRows(SubBytes(u)), RoundKey(key, 4, m_iROUNDS))))
    {
      hide S, Add, B0, B1, B2, B3, AddRoundKey, MixColumns, ShiftRows, SubBytes, RoundKey, DecRoundKey, Splice, ToBytes, Storing;
      ghost var u := [t0, t1, t2, t3];
      ghost var k := RoundKey(key, 4, m_iROUNDS);
      ghost var last := AddRoundKey(ShiftRows(SubBytes(u)), k);
      ghost var before := result[..];
      NothingStored(before, off, last);
      ScheduledRow(m_iROUNDS);
      UnrolledEncryptLast(u, k);
      var tt := m_Ke[m_iROUNDS, 0];
      StoreColumn(result, off, 0, Add(S(B0(t0)), B0(tt)), Add(S(B1(t1)), B1(tt)),
                  Add(S(B2(t2)), B2(tt)), Add(S(B3(t3)), B3(tt)), before, last);
      tt := m_Ke[m_iROUNDS, 1];
      StoreColumn(result, off, 1, Add(S(B0(t1)), B0(tt)), Add(S(B1(t2)), B1(tt)),
                  Add(S(B2(t3)), B2(tt)), Add(S(B3(t0)), B3(tt)), before, last);
      tt := m_Ke[m_iROUNDS, 2];
      StoreColumn(result, off, 2, Add(S(B0(t2)), B0(tt)), Add(S(B1(t3)), B1(tt)),
                  Add(S(B2(t0)), B2(tt)), Add(S(B3(t1)), B3(tt)), before, last);
      tt := m_Ke[m_iROUNDS, 3];
      StoreColumn(result, off, 3, Add(S(B0(t3)), B0(tt)), Add(S(B1(t0)), B1(tt)),
                  Add(S(B2(t1)), B2(tt)), Add(S(B3(t2)), B3(tt)), before, last);
      StoredIsSplice(before, result[..], off, last);
    }

    /** One block of 16 bytes, with the four columns in local variables. */
    method DefEncryptBlock(inp: Bytes, result: array<bv8>, off: nat) returns (o: Outcome)
      requires Valid()
      requires m_bKeyInit ==> m_blockSize == 16 && |inp| == 16 && off + 16 <= result.Length
      modifies result
      ensures Valid()
      ensures o == if m_bKeyInit then Done else Thrown(NOT_INITIALIZED)
      ensures result[..] == if m_bKeyInit then Splice(old(result[..]), off, EncryptedBlock(key, 4, inp))
                            else old(result[..])
    {
      hide AddRoundKey, MixColumns, ShiftRows, SubBytes, RoundKey, DecRoundKey, Scheduled, Splice, ToBytes, ToWords;
      if !m_bKeyInit {
        return Thrown(NOT_INITIALIZED);
      }
      var t0, t1, t2, t3 := DefEncryptLoad(inp);
      t0, t1, t2, t3 := DefEncryptRounds(ToWords(inp, 4), t0, t1, t2, t3);
      DefEncryptLast(result, off, t0, t1, t2, t3);
      o := Done;
    }

    method EncryptGeneral(inp: Bytes, result: array<bv8>, off: nat)
      requires Shaped() && Sized() && Scheduled() && |inp| == m_blockSize && off + m_blockSize <= result.Length
      modifies t, a, result
      ensures Scheduled()
      ensures result[..] == Splice(old(result[..]), off, EncryptedBlock(key, m_blockSize / 4, inp))
    {
      hide AddRoundKey, MixColumns, ShiftRows, SubBytes, RoundKey, DecRoundKey, Scheduled, Splice, ToBytes, ToWords;
      var BC := m_blockSize / 4;
      ghost var s := ToWords(inp, BC);
      ScheduledRow(0);
      LoadBlock(inp, m_Ke, RoundKey(key, BC, 0));
      EncryptRounds(s);
      EncryptLast(result, off, EncState(key, BC, s, m_iROUNDS - 1));
    }

    /** One block of any size. A block of 16 bytes takes the unrolled path. */
    method EncryptBlock(inp: Bytes, result: array<bv8>, off: nat) returns (o: Outcome)
      requires Valid()
      requires m_bKeyInit ==> |inp| == m_blockSize && off + m_blockSize <= result.Length
      modifies t, a, result
      ensures Valid()
      ensures o == if m_bKeyInit then Done else Thrown(NOT_INITIALIZED)
      ensures result[..] == if m_bKeyInit then Splice(old(result[..]), off, EncryptedBlock(key, m_blockSize / 4, inp))
                            else old(result[..])
    {
      hide AddRoundKey, MixColumns, ShiftRows, SubBytes, RoundKey, DecRoundKey, Scheduled, Splice, ToBytes, ToWords, Rounds;
      if !m_bKeyInit {
        return Thrown(NOT_INITIALIZED);
      }
      if m_blockSize == 16 {
        o := DefEncryptBlock(inp, result, off);
        return;
      }
      EncryptGeneral(inp, result, off);
      o := Done;
    }

    /** The four column variables of the unrolled path after the first key addition. */
    method DefDecryptLoad(inp: Bytes) returns (t0: bv32, t1: bv32, t2: bv32, t3: bv32)
      requires Shaped() && Sized() && Scheduled() && m_blockSize == 16 && |inp| == 16
      ensures [t0, t1, t2, t3] == DecState(key, 4, ToWords(inp, 4), 0)
    {
      hide Pack, AddW, KeyWord, RoundKey, DecRoundKey;
      t0 := AddW(Pack(inp[0], inp[1], inp[2], inp[3]), m_Kd[0, 0]);
      t1 := AddW(Pack(inp[4], inp[5], inp[6], inp[7]), m_Kd[0, 1]);
      t2 := AddW(Pack(inp[8], inp[9], inp[10], inp[11]), m_Kd[0, 2]);
      t3 := AddW(Pack(inp[12], inp[13], inp[14], inp[15]), m_Kd[0, 3]);
    }

    /** One unrolled round. */
    method DefDecryptRound(r: nat, t0: bv32, t1: bv32, t2: bv32, t3: bv32) returns (a0: bv32, a1: bv32, a2: bv32, a3: bv32)
      requires Shaped() && Sized() && Scheduled() && m_blockSize == 16 && r <= m_iROUNDS
      ensures var u := [t0, t1, t2, t3];
              [a0, a1, a2, a3] == AddRoundKey(InvMixColumns(InvShiftRows(InvSubBytes(u))), DecRoundKey(key, 4, r))
    {
      hide T5, T6, T7, T8, Sum4, AddW, B0, B1, B2, B3, AddRoundKey, InvMixColumns, InvShiftRows, InvSubBytes, RoundKey, DecRoundKey;
      a0 := AddW(Sum4(T5(B0(t0)), T6(B1(t3)), T7(B2(t2)), T8(B3(t1))), m_Kd[r, 0]);
      a1 := AddW(Sum4(T5(B0(t1)), T6(B1(t0)), T7(B2(t3)), T8(B3(t2))), m_Kd[r, 1]);
      a2 := AddW(Sum4(T5(B0(t2)), T6(B1(t1)), T7(B2(t0)), T8(B3(t3))), m_Kd[r, 2]);
      a3 := AddW(Sum4(T5(B0(t3)), T6(B1(t2)), T7(B2(t1)), T8(B3(t0))), m_Kd[r, 3]);
      UnrolledDecryptRound([t0, t1, t2, t3], DecRoundKey(key, 4, r));
    }

    method DefDecryptRounds(ghost s: State, u0: bv32, u1: bv32, u2: bv32, u3: bv32) returns (t0: bv32, t1: bv32, t2: bv32, t3: bv32)
      requires Shaped() && Sized() && Scheduled() && m_blockSize == 16 && |s| == 4
      requires [u0, u1, u2, u3] == DecState(key, 4, s, 0)
      ensures [t0, t1, t2, t3] == DecState(key, 4, s, m_iROUNDS - 1)
    {
      hide AddRoundKey, InvMixColumns, InvShiftRows, InvSubBytes, RoundKey, DecRoundKey, Scheduled;
      t0, t1, t2, t3 := u0, u1, u2, u3;
      var r := 1;
      while r < m_iROUNDS
        invariant 1 <= r <= m_iROUNDS
        invariant [t0, t1, t2, t3] == DecState(key, 4, s, r - 1)
      {
        t0, t1, t2, t3 := DefDecryptRound(r, t0, t1, t2, t3);
        r := r + 1;
      }
    }

    /** The sixteen stores of the last round. */
    method DefDecryptLast(result: array<bv8>, off: nat, t0: bv32, t1: bv32, t2: bv32, t3: bv32)
      requires Shaped() && Sized() && Scheduled() && m_blockSize == 16 && off + 16 <= result.Length
      modifies result
      ensures var u := [t0, t1, t2, t3];
              result[..] == Splice(old(result[..]), off, ToBytes(AddRoundKey(InvShiftRows(InvSubBytes(u)), DecRoundKey(key, 4, m_iROUNDS))))
    {
      hide Si, Add, B0, B1, B2, B3, AddRoundKey, InvMixColumns, InvShiftRows, InvSubBytes, RoundKey, DecRoundKey, Splice, ToBytes, Storing;
      ghost var u := [t0, t1, t2, t3];
      ghost var k := DecRoundKey(key, 4, m_iROUNDS);
      ghost var last := AddRoundKey(InvShiftRows(InvSubBytes(u)), k);
      ghost var before := result[..];
      NothingStored(before, off, last);
      ScheduledRow(m_iROUNDS);
      UnrolledDecryptLast(u, k);
      var tt := m_Kd[m_iROUNDS, 0];
      StoreColumn(result, off, 0, Add(Si(B0(t0)), B0(tt)), Add(Si(B1(t3)), B1(tt)),
                  Add(Si(B2(t2)), B2(tt)), Add(Si(B3(t1)), B3(tt)), before, last);
      tt := m_Kd[m_iROUNDS, 1];
      StoreColumn(result, off, 1, Add(Si(B0(t1)), B0(tt)), Add(Si(B1(t0)), B1(tt)),
                  Add(Si(B2(t3)), B2(tt)), Add(Si(B3(t2)), B3(tt)), before, last);
      tt := m_Kd[m_iROUNDS, 2];
      StoreColumn(result, off, 2, Add(Si(B0(t2)), B0(tt)), Add(Si(B1(t1)), B1(tt)),
                  Add(Si(B2(t0)), B2(tt)), Add(Si(B3(t3)), B3(tt)), before, last);
      tt := m_Kd[m_iROUNDS, 3];
      StoreColumn(result, off, 3, Add(Si(B0(t3)), B0(tt)), Add(Si(B1(t2)), B1(tt)),
                  Add(Si(B2(t1)), B2(tt)), Add(Si(B3(t0)), B3(tt)), before, last);
      StoredIsSplice(before, result[..], off, last);
    }

    /** One block of 16 bytes, with the four columns in local variables. */
    method DefDecryptBlock(inp: Bytes, result: array<bv8>, off: nat) returns (o: Outcome)
      requires Valid()
      requires m_bKeyInit ==> m_blockSize == 16 && |inp| == 16 && off + 16 <= result.Length
      modifies result
      ensures Valid()
      ensures o == if m_bKeyInit then Done else Thrown(NOT_INITIALIZED)
      ensures result[..] == if m_bKeyInit then Splice(old(result[..]), off, DecryptedBlock(key, 4, inp))
                            else old(result[..])
    {
      hide AddRoundKey, InvMixColumns, InvShiftRows, InvSubBytes, RoundKey, DecRoundKey, Scheduled, Splice, ToBytes, ToWords;
      if !m_bKeyInit {
        return Thrown(NOT_INITIALIZED);
      }
      var t0, t1, t2, t3 := DefDecryptLoad(inp);
      t0, t1, t2, t3 := DefDecryptRounds(ToWords(inp, 4), t0, t1, t2, t3);
      DefDecryptLast(result, off, t0, t1, t2, t3);
      o := Done;
    }

    method DecryptGeneral(inp: Bytes, result: array<bv8>, off: nat)
      requires Shaped() && Sized() && Scheduled() && |inp| == m_blockSize && off + m_blockSize <= result.Length
      modifies t, a, result
      ensures Scheduled()
      ensures result[..] == Splice(old(result[..]), off, DecryptedBlock(key, m_blockSize / 4, inp))
    {
      hide AddRoundKey, InvMixColumns, InvShiftRows, InvSubBytes, RoundKey, DecRoundKey, Scheduled, Splice, ToBytes, ToWords;
      var BC := m_blockSize / 4;
      ghost var s := ToWords(inp, BC);
      ScheduledRow(0);
      LoadBlock(inp, m_Kd, DecRoundKey(key, BC, 0));
      DecryptRounds(s);
      DecryptLast(result, off, DecState(key, BC, s, m_iROUNDS - 1));
    }

    /** One block of any size. A block of 16 bytes takes the unrolled path. */
    method DecryptBlock(inp: Bytes, result: array<bv8>, off: nat) returns (o: Outcome)
      requires Valid()
      requires m_bKeyInit ==> |inp| == m_blockSize && off + m_blockSize <= result.Length
      modifies t, a, result
      ensures Valid()
      ensures o == if m_bKeyInit then Done else Thrown(NOT_INITIALIZED)
      ensures result[..] == if m_bKeyInit then Splice(old(result[..]), off, DecryptedBlock(key, m_blockSize / 4, inp))
                            else old(result[..])
    {
      hide AddRoundKey, InvMixColumns, InvShiftRows, InvSubBytes, RoundKey, DecRoundKey, Scheduled, Splice, ToBytes, ToWords, Rounds;
      if !m_bKeyInit {
        return Thrown(NOT_INITIALIZED);
      }
      if m_blockSize == 16 {
        o := DefDecryptBlock(inp, result, off);
        return;
      }
      DecryptGeneral(inp, result, off);
      o := Done;
    }

    // ---------------------------------------------------------------- modes of operation

    /** The running chain is set back to the initial one. */
    method ResetChain()
      requires Shaped() && m_blockSize <= MAX_BLOCK_SIZE
      modifies m_chain
      ensures m_chain[..m_blockSize] == m_chain0[..m_blockSize]
    {
      CopyChain(m_chain, m_chain0[..m_blockSize], m_blockSize);
    }

    /** Xor applied to the chain, and to a block of the result. */
    method XorChain(b: Bytes)
      requires Shaped() && m_blockSize <= MAX_BLOCK_SIZE && |b| == m_blockSize
      modifies m_chain
      ensures m_chain[..m_blockSize] == XorBytes(old(m_chain[..m_blockSize]), b)
    {
      hide Add;
      var i := 0;
      while i < m_blockSize
        invariant 0 <= i <= m_blockSize
        invariant forall j | 0 <= j < i :: m_chain[j] == Add(old(m_chain[..])[j], b[j])
        invariant forall j | i <= j < m_blockSize :: m_chain[j] == old(m_chain[..])[j]
      {
        m_chain[i] := Add(m_chain[i], b[i]);
        i := i + 1;
      }
    }

    method XorResult(result: array<bv8>, off: nat, b: Bytes)
      requires |b| == m_blockSize && off + m_blockSize <= result.Length
      modifies result
      ensures result[..] == Splice(old(result[..]), off, XorBytes(old(result[off..off + m_blockSize]), b))
    {
      hide Add;
      var i := 0;
      while i < m_blockSize
        invariant 0 <= i <= m_blockSize
        invariant forall j | off <= j < off + i :: result[j] == Add(old(result[..])[j], b[j - off])
        invariant forall j | 0 <= j < result.Length && !(off <= j < off + i) :: result[j] == old(result[..])[j]
      {
        result[off + i] := Add(result[off + i], b[i]);
        i := i + 1;
      }
    }

    /** One block of cipher block chaining, at position off of the result. */
    method EncryptCbc(inp: Bytes, result: array<bv8>, off: nat)
      requires Valid() && m_bKeyInit && |inp| == m_blockSize && off + m_blockSize <= result.Length
      requires result != m_chain && result != m_chain0
      modifies t, a, m_chain, result
      ensures Valid()
      ensures result[..] == Splice(old(result[..]), off, EncryptStep(CBC, Keyed(key, m_blockSize / 4), old(m_chain[..m_blockSize]), inp))
      ensures m_chain[..m_blockSize] == EncryptStep(CBC, Keyed(key, m_blockSize / 4), old(m_chain[..m_blockSize]), inp)
    {
      hide EncryptedBlock, DecryptedBlock, Scheduled, Rounds, XorBytes, Splice;
      ghost var chain := m_chain[..m_blockSize];
      ghost var c := EncryptStep(CBC, Keyed(key, m_blockSize / 4), chain, inp);
      XorChain(inp);
      var o := EncryptBlock(m_chain[..m_blockSize], result, off);
      SpliceTwice(old(result[..]), off, c, c);
      CopyChain(m_chain, result[off..off + m_blockSize], m_blockSize);
    }

    /** One block of cipher feedback. */
    method EncryptCfb(inp: Bytes, result: array<bv8>, off: nat)
      requires Valid() && m_bKeyInit && |inp| == m_blockSize && off + m_blockSize <= result.Length
      requires result != m_chain && result != m_chain0
      modifies t, a, m_chain, result
      ensures Valid()
      ensures result[..] == Splice(old(result[..]), off, EncryptStep(CFB, Keyed(key, m_blockSize / 4), old(m_chain[..m_blockSize]), inp))
      ensures m_chain[..m_blockSize] == EncryptStep(CFB, Keyed(key, m_blockSize / 4), old(m_chain[..m_blockSize]), inp)
    {
      hide EncryptedBlock, DecryptedBlock, Scheduled, Rounds, XorBytes, Splice;
      ghost var chain := m_chain[..m_blockSize];
      ghost var e := EncryptedBlock(key, m_blockSize / 4, chain);
      ghost var c := EncryptStep(CFB, Keyed(key, m_blockSize / 4), chain, inp);
      var o := EncryptBlock(m_chain[..m_blockSize], result, off);
      SpliceTwice(old(result[..]), off, e, c);
      XorResult(result, off, inp);
      SpliceTwice(old(result[..]), off, c, c);
      CopyChain(m_chain, result[off..off + m_blockSize], m_blockSize);
    }

    /** One block in the given mode. */
    method EncryptInMode(iMode: int, inp: Bytes, result: array<bv8>, off: nat)
      requires Valid() && m_bKeyInit && |inp| == m_blockSize && off + m_blockSize <= result.Length
      requires result != m_chain && result != m_chain0
      modifies t, a, m_chain, result
      ensures Valid()
      ensures result[..] == Splice(old(result[..]), off, EncryptStep(iMode, Keyed(key, m_blockSize / 4), old(m_chain[..m_blockSize]), inp))
      ensures m_chain[..m_blockSize] ==
              NextChain(iMode, old(m_chain[..m_blockSize]), EncryptStep(iMode, Keyed(key, m_blockSize / 4), old(m_chain[..m_blockSize]), inp))
    {
      hide EncryptedBlock, DecryptedBlock, Scheduled, Rounds, Splice, XorBytes;
      if iMode == CBC {
        EncryptCbc(inp, result, off);
      } else if iMode == CFB {
        EncryptCfb(inp, result, off);
      } else {
        var o := EncryptBlock(inp, result, off);
      }
    }

    /** The loop over the blocks of a buffer. The source writes it out once for each mode. */
    method EncryptBlocks(iMode: int, inp: Bytes, result: array<bv8>, n: nat)
      requires Valid() && m_bKeyInit && result != m_chain && result != m_chain0
      requires Start(m_blockSize, n) <= |inp| && Start(m_blockSize, n) <= result.Length
      modifies t, a, m_chain, result
      ensures Valid()
      ensures result[Start(m_blockSize, n)..] == old(result[Start(m_blockSize, n)..])
      ensures Run(BlocksOf(result[..], m_blockSize, n), m_chain[..m_blockSize]) ==
              Encrypted(iMode, Keyed(key, m_blockSize / 4), old(m_chain[..m_blockSize]), BlocksOf(inp, m_blockSize, n))
    {
      hide Scheduled, EncryptStep, Rounds, Start, Splice, BlocksOf, Encrypted, NextChain;
      EncryptedNone(iMode, Keyed(key, m_blockSize / 4), m_chain[..m_blockSize]);
      NoBlocks(inp, m_blockSize);
      NoBlocks(result[..], m_blockSize);
      var i := 0;
      while i < n
        invariant 0 <= i <= n && Start(m_blockSize, i) <= Start(m_blockSize, n) && Valid()
        invariant result[Start(m_blockSize, n)..] == old(result[Start(m_blockSize, n)..])
        invariant Run(BlocksOf(result[..], m_blockSize, i), m_chain[..m_blockSize]) ==
                  Encrypted(iMode, Keyed(key, m_blockSize / 4), old(m_chain[..m_blockSize]), BlocksOf(inp, m_blockSize, i))
      {
        StartNext(m_blockSize, i, n);
        ghost var chain := m_chain[..m_blockSize];
        ghost var before := result[..];
        var b := inp[Start(m_blockSize, i)..Start(m_blockSize, i + 1)];
        EncryptInMode(iMode, b, result, Start(m_blockSize, i));
        ghost var x := EncryptStep(iMode, Keyed(key, m_blockSize / 4), chain, b);
        NextBlock(inp, m_blockSize, i);
        SplicedNextBlock(before, m_blockSize, i, x);
        SpliceTail(before, Start(m_blockSize, i), x, Start(m_blockSize, n));
        EncryptedNext(iMode, Keyed(key, m_blockSize / 4), old(m_chain[..m_blockSize]), BlocksOf(inp, m_blockSize, i), b);
        i := i + 1;
      }
    }

    /** A whole buffer of n bytes in ECB, CBC or CFB mode. The input must not overlap the result. */
    method Encrypt(inp: Bytes, result: array<bv8>, n: nat, iMode: int) returns (o: Outcome)
      requires Valid() && result != m_chain && result != m_chain0
      requires m_bKeyInit ==> n <= |inp| && n <= result.Length
      modifies t, a, m_chain, result
      ensures Valid()
      ensures o == if !m_bKeyInit then Thrown(NOT_INITIALIZED)
                   else if n == 0 || n % m_blockSize != 0 then Thrown(NOT_MULTIPLE)
                   else Done
      ensures o.Thrown? ==> result[..] == old(result[..]) && m_chain[..] == old(m_chain[..])
      ensures o.Done? ==> Start(m_blockSize, n / m_blockSize) == n && result[n..] == old(result[n..])
      ensures o.Done? ==>
        Run(BlocksOf(result[..], m_blockSize, n / m_blockSize), m_chain[..m_blockSize]) ==
        Encrypted(iMode, Keyed(key, m_blockSize / 4), old(m_chain[..m_blockSize]), BlocksOf(inp, m_blockSize, n / m_blockSize))
    {
      hide Scheduled, EncryptStep, NextChain, Rounds, Start, BlocksOf, Encrypted;
      if !m_bKeyInit {
        return Thrown(NOT_INITIALIZED);
      }
      if n == 0 || n % m_blockSize != 0 {
        return Thrown(NOT_MULTIPLE);
      }
      StartOfWhole(m_blockSize, n);
      EncryptBlocks(iMode, inp, result, n / m_blockSize);
      o := Done;
    }

    /** One block of cipher block chaining, at position off of the result. */
    method DecryptCbc(inp: Bytes, result: array<bv8>, off: nat)
      requires Valid() && m_bKeyInit && |inp| == m_blockSize && off + m_blockSize <= result.Length
      requires result != m_chain && result != m_chain0
      modifies t, a, m_chain, result
      ensures Valid()
      ensures result[..] == Splice(old(result[..]), off, DecryptStep(CBC, Keyed(key, m_blockSize / 4), old(m_chain[..m_blockSize]), inp))
      ensures m_chain[..m_blockSize] == inp
    {
      hide EncryptedBlock, DecryptedBlock, Scheduled, Rounds, XorBytes, Splice;
      ghost var chain := m_chain[..m_blockSize];
      ghost var d := DecryptedBlock(key, m_blockSize / 4, inp);
      ghost var p := DecryptStep(CBC, Keyed(key, m_blockSize / 4), chain, inp);
      var o := DecryptBlock(inp, result, off);
      SpliceTwice(old(result[..]), off, d, p);
      XorResult(result, off, m_chain[..m_blockSize]);
      CopyChain(m_chain, inp, m_blockSize);
    }

    /** One block of cipher feedback. */
    method DecryptCfb(inp: Bytes, result: array<bv8>, off: nat)
      requires Valid() && m_bKeyInit && |inp| == m_blockSize && off + m_blockSize <= result.Length
      requires result != m_chain && result != m_chain0
      modifies t, a, m_chain, result
      ensures Valid()
      ensures result[..] == Splice(old(result[..]), off, DecryptStep(CFB, Keyed(key, m_blockSize / 4), old(m_chain[..m_blockSize]), inp))
      ensures m_chain[..m_blockSize] == inp
    {
      hide EncryptedBlock, DecryptedBlock, Scheduled, Rounds, XorBytes, Splice;
      ghost var chain := m_chain[..m_blockSize];
      ghost var e := EncryptedBlock(key, m_blockSize / 4, chain);
      ghost var p := DecryptStep(CFB, Keyed(key, m_blockSize / 4), chain, inp);
      var o := EncryptBlock(m_chain[..m_blockSize], result, off);
      SpliceTwice(old(result[..]), off, e, p);
      XorResult(result, off, inp);
      CopyChain(m_chain, inp, m_blockSize);
    }

    /** One block in the given mode. */
    method DecryptInMode(iMode: int, inp: Bytes, result: array<bv8>, off: nat)
      requires Valid() && m_bKeyInit && |inp| == m_blockSize && off + m_blockSize <= result.Length
      requires result != m_chain && result != m_chain0
      modifies t, a, m_chain, result
      ensures Valid()
      ensures result[..] == Splice(old(result[..]), off, DecryptStep(iMode, Keyed(key, m_blockSize / 4), old(m_chain[..m_blockSize]), inp))
      ensures m_chain[..m_blockSize] == NextChain(iMode, old(m_chain[..m_blockSize]), inp)
    {
      hide EncryptedBlock, DecryptedBlock, Scheduled, Rounds, Splice, XorBytes;
      if iMode == CBC {
        DecryptCbc(inp, result, off);
      } else if iMode == CFB {
        DecryptCfb(inp, result, off);
      } else {
        var o := DecryptBlock(inp, result, off);
      }
    }

    /** The loop over the blocks of a buffer. The source writes it out once for each mode. */
    method DecryptBlocks(iMode: int, inp: Bytes, result: array<bv8>, n: nat)
      requires Valid() && m_bKeyInit && result != m_chain && result != m_chain0
      requires Start(m_blockSize, n) <= |inp| && Start(m_blockSize, n) <= result.Length
      modifies t, a, m_chain, result
      ensures Valid()
      ensures result[Start(m_blockSize, n)..] == old(result[Start(m_blockSize, n)..])
      ensures Run(BlocksOf(result[..], m_blockSize, n), m_chain[..m_blockSize]) ==
              Decrypted(iMode, Keyed(key, m_blockSize / 4), old(m_chain[..m_blockSize]), BlocksOf(inp, m_blockSize, n))
    {
      hide Scheduled, DecryptStep, Rounds, Start, Splice, BlocksOf, Decrypted, NextChain;
      DecryptedNone(iMode, Keyed(key, m_blockSize / 4), m_chain[..m_blockSize]);
      NoBlocks(inp, m_blockSize);
      NoBlocks(result[..], m_blockSize);
      var i := 0;
      while i < n
        invariant 0 <= i <= n && Start(m_blockSize, i) <= Start(m_blockSize, n) && Valid()
        invariant result[Start(m_blockSize, n)..] == old(result[Start(m_blockSize, n)..])
        invariant Run(BlocksOf(result[..], m_blockSize, i), m_chain[..m_blockSize]) ==
                  Decrypted(iMode, Keyed(key, m_blockSize / 4), old(m_chain[..m_blockSize]), BlocksOf(inp, m_blockSize, i))
      {
        StartNext(m_blockSize, i, n);
        ghost var chain := m_chain[..m_blockSize];
        ghost var before := result[..];
        var b := inp[Start(m_blockSize, i)..Start(m_blockSize, i + 1)];
        DecryptInMode(iMode, b, result, Start(m_blockSize, i));
        ghost var x := DecryptStep(iMode, Keyed(key, m_blockSize / 4), chain, b);
        NextBlock(inp, m_blockSize, i);
        SplicedNextBlock(before, m_blockSize, i, x);
        SpliceTail(before, Start(m_blockSize, i), x, Start(m_blockSize, n));
        DecryptedNext(iMode, Keyed(key, m_blockSize / 4), old(m_chain[..m_blockSize]), BlocksOf(inp, m_blockSize, i), b);
        i := i + 1;
      }
    }

    /** A whole buffer of n bytes in ECB, CBC or CFB mode. The input must not overlap the result. */
    method Decrypt(inp: Bytes, result: array<bv8>, n: nat, iMode: int) returns (o: Outcome)
      requires Valid() && result != m_chain && result != m_chain0
      requires m_bKeyInit ==> n <= |inp| && n <= result.Length
      modifies t, a, m_chain, result
      ensures Valid()
      ensures o == if !m_bKeyInit then Thrown(NOT_INITIALIZED)
                   else if n == 0 || n % m_blockSize != 0 then Thrown(NOT_MULTIPLE)
                   else Done
      ensures o.Thrown? ==> result[..] == old(result[..]) && m_chain[..] == old(m_chain[..])
      ensures o.Done? ==> Start(m_blockSize, n / m_blockSize) == n && result[n..] == old(result[n..])
      ensures o.Done? ==>
        Run(BlocksOf(result[..], m_blockSize, n / m_blockSize), m_chain[..m_blockSize]) ==
        Decrypted(iMode, Keyed(key, m_blockSize / 4), old(m_chain[..m_blockSize]), BlocksOf(inp, m_blockSize, n / m_blockSize))
    {
      hide Scheduled, DecryptStep, NextChain, Rounds, Start, BlocksOf, Decrypted;
      if !m_bKeyInit {
        return Thrown(NOT_INITIALIZED);
      }
      if n == 0 || n % m_blockSize != 0 {
        return Thrown(NOT_MULTIPLE);
      }
      StartOfWhole(m_blockSize, n);
      DecryptBlocks(iMode, inp, result, n / m_blockSize);
      o := Done;
    }
  }
}
