/** The three modes of operation over a sequence of blocks, with the chain block they carry
    along (sections 6.1 to 6.3 of NIST SP 800-38A). */
module BlockModes {
  import opened Gf256
  import opened RijndaelCipher
  import opened RijndaelBlocks
  import opened Sequences

  const CBC := 1
  const CFB := 2

  function XorBytes(a: Bytes, b: Bytes): (c: Bytes)
    requires |a| == |b|
    ensures |c| == |a|
  {
    seq(|a|, i requires 0 <= i < |a| => Add(a[i], b[i]))
  }

  lemma XorBytesCancels(a: Bytes, b: Bytes)
    requires |a| == |b|
    ensures XorBytes(XorBytes(a, b), a) == b && XorBytes(XorBytes(a, b), b) == a
  {
    hide Add;
    forall i | 0 <= i < |a|
      ensures XorBytes(XorBytes(a, b), a)[i] == b[i] && XorBytes(XorBytes(a, b), b)[i] == a[i]
    {
      AddCancels(a[i], b[i]);
    }
  }

  lemma AddCancels(a: bv8, b: bv8)
    ensures Add(Add(a, b), a) == b && Add(Add(a, b), b) == a
  {}

  lemma XorBytesCommutes(a: Bytes, b: Bytes)
    requires |a| == |b|
    ensures XorBytes(a, b) == XorBytes(b, a)
  {}

  /** A schedule: key words and columns of a block. */
  datatype Keyed = Keyed(key: State, nb: nat) {
    predicate Legal() { Columns(|key|) && Columns(nb) }
    function Size(): nat { 4 * nb }
  }

  ghost predicate Blocks(k: Keyed, bs: seq<Bytes>) {
    forall i | 0 <= i < |bs| :: |bs[i]| == k.Size()
  }

  /** What a mode leaves behind: the blocks it put out and the chain it carries on. */
  datatype Run = Run(out: seq<Bytes>, chain: Bytes)

  function EncryptStep(mode: int, k: Keyed, chain: Bytes, p: Bytes): (c: Bytes)
    requires k.Legal() && |chain| == |p| == k.Size()
    ensures |c| == k.Size()
  {
    if mode == CBC then EncryptedBlock(k.key, k.nb, XorBytes(chain, p))
    else if mode == CFB then XorBytes(EncryptedBlock(k.key, k.nb, chain), p)
    else EncryptedBlock(k.key, k.nb, p)
  }

  function DecryptStep(mode: int, k: Keyed, chain: Bytes, c: Bytes): (p: Bytes)
    requires k.Legal() && |chain| == |c| == k.Size()
    ensures |p| == k.Size()
  {
    if mode == CBC then XorBytes(DecryptedBlock(k.key, k.nb, c), chain)
    else if mode == CFB then XorBytes(EncryptedBlock(k.key, k.nb, chain), c)
    else DecryptedBlock(k.key, k.nb, c)
  }

  /** The chain after ciphertext block c; ECB leaves it alone. */
  function NextChain(mode: int, chain: Bytes, c: Bytes): Bytes {
    if mode == CBC || mode == CFB then c else chain
  }

  function Encrypted(mode: int, k: Keyed, chain: Bytes, ps: seq<Bytes>): (r: Run)
    requires k.Legal() && |chain| == k.Size() && Blocks(k, ps)
    ensures |r.out| == |ps| && Blocks(k, r.out) && |r.chain| == k.Size()
  {
    if ps == [] then Run([], chain)
    else
      var n := |ps| - 1;
      var before := Encrypted(mode, k, chain, ps[..n]);
      var c := EncryptStep(mode, k, before.chain, ps[n]);
      Run(before.out + [c], NextChain(mode, before.chain, c))
  }

  function Decrypted(mode: int, k: Keyed, chain: Bytes, cs: seq<Bytes>): (r: Run)
    requires k.Legal() && |chain| == k.Size() && Blocks(k, cs)
    ensures |r.out| == |cs| && Blocks(k, r.out) && |r.chain| == k.Size()
  {
    if cs == [] then Run([], chain)
    else
      var n := |cs| - 1;
      var before := Decrypted(mode, k, chain, cs[..n]);
      Run(before.out + [DecryptStep(mode, k, before.chain, cs[n])], NextChain(mode, before.chain, cs[n]))
  }

  lemma StepRoundTrip(mode: int, k: Keyed, chain: Bytes, p: Bytes)
    requires k.Legal() && |chain| == |p| == k.Size()
    ensures DecryptStep(mode, k, chain, EncryptStep(mode, k, chain, p)) == p
  {
    hide EncryptedBlock, DecryptedBlock, XorBytes;
    if mode == CBC {
      BlockRoundTrip(k.key, k.nb, XorBytes(chain, p));
      XorBytesCancels(chain, p);
    } else if mode == CFB {
      var e := EncryptedBlock(k.key, k.nb, chain);
      XorBytesCancels(e, p);
      XorBytesCommutes(e, XorBytes(e, p));
    } else {
      BlockRoundTrip(k.key, k.nb, p);
    }
  }

  /** In every mode, decryption from the same chain gives the blocks back and ends on the same chain. */
  lemma {:induction false} ModeRoundTrip(mode: int, k: Keyed, chain: Bytes, ps: seq<Bytes>)
    requires k.Legal() && |chain| == k.Size() && Blocks(k, ps)
    ensures var e := Encrypted(mode, k, chain, ps);
            Decrypted(mode, k, chain, e.out) == Run(ps, e.chain)
  {
    hide EncryptStep, DecryptStep, NextChain;
    if ps == [] {
    } else {
      var n := |ps| - 1;
      var before := Encrypted(mode, k, chain, ps[..n]);
      ModeRoundTrip(mode, k, chain, ps[..n]);
      StepRoundTrip(mode, k, before.chain, ps[n]);
      assert Encrypted(mode, k, chain, ps).out[..n] == before.out;
      assert ps[..n] + [ps[n]] == ps;
    }
  }

  /** A message encrypted in two calls comes out as in one: the chain carries over. */
  lemma {:induction false} EncryptedInParts(mode: int, k: Keyed, chain: Bytes, ps: seq<Bytes>, qs: seq<Bytes>)
    requires k.Legal() && |chain| == k.Size() && Blocks(k, ps) && Blocks(k, qs)
    ensures var first := Encrypted(mode, k, chain, ps);
            var second := Encrypted(mode, k, first.chain, qs);
            Encrypted(mode, k, chain, ps + qs) == Run(first.out + second.out, second.chain)
  {
    hide EncryptStep, NextChain;
    if qs == [] {
      assert ps + qs == ps;
    } else {
      var n := |qs| - 1;
      EncryptedInParts(mode, k, chain, ps, qs[..n]);
      assert (ps + qs)[..|ps| + n] == ps + qs[..n];
      assert (ps + qs)[|ps| + n] == qs[n];
    }
  }

  lemma {:induction false} DecryptedInParts(mode: int, k: Keyed, chain: Bytes, cs: seq<Bytes>, ds: seq<Bytes>)
    requires k.Legal() && |chain| == k.Size() && Blocks(k, cs) && Blocks(k, ds)
    ensures var first := Decrypted(mode, k, chain, cs);
            var second := Decrypted(mode, k, first.chain, ds);
            Decrypted(mode, k, chain, cs + ds) == Run(first.out + second.out, second.chain)
  {
    hide DecryptStep, NextChain;
    if ds == [] {
      assert cs + ds == cs;
    } else {
      var n := |ds| - 1;
      DecryptedInParts(mode, k, chain, cs, ds[..n]);
      assert (cs + ds)[..|cs| + n] == cs + ds[..n];
      assert (cs + ds)[|cs| + n] == ds[n];
    }
  }

  // ------------------------------------------------------------ the equations of the modes

  /** The ciphertext block before block i: the chain the call started with, for the first. */
  function Before(chain: Bytes, cs: seq<Bytes>, i: nat): Bytes
    requires i <= |cs|
  {
    if i == 0 then chain else cs[i - 1]
  }

  /** What a mode links to block i: the ciphertext block before it, but nothing new in ECB. */
  function Link(mode: int, chain: Bytes, cs: seq<Bytes>, i: nat): Bytes
    requires i <= |cs|
  {
    if mode == 1 || mode == 2 then Before(chain, cs, i) else chain
  }

  /** Section 6.2 of NIST SP 800-38A for CBC (1), section 6.3 for CFB with segments of a whole block
      (2), and section 6.1 for everything else: what holds of plaintext block p, ciphertext block c
      and the ciphertext block before it, byte by byte. */
  ghost predicate ModeEquation(mode: int, k: Keyed, before: Bytes, p: Bytes, c: Bytes)
    requires k.Legal() && |before| == |p| == |c| == k.Size()
  {
    if mode == 1 then forall j | 0 <= j < k.Size() :: DecryptedBlock(k.key, k.nb, c)[j] == before[j] ^ p[j]
    else if mode == 2 then forall j | 0 <= j < k.Size() :: c[j] == EncryptedBlock(k.key, k.nb, before)[j] ^ p[j]
    else c == EncryptedBlock(k.key, k.nb, p)
  }

  lemma EncryptStepEquation(mode: int, k: Keyed, before: Bytes, p: Bytes)
    requires k.Legal() && |before| == |p| == k.Size()
    ensures ModeEquation(mode, k, before, p, EncryptStep(mode, k, before, p))
    ensures mode == 1 ==> EncryptStep(mode, k, before, p) == EncryptedBlock(k.key, k.nb, XorBytes(before, p))
  {
    hide EncryptedBlock, DecryptedBlock;
    if mode == 1 {
      BlockRoundTrip(k.key, k.nb, XorBytes(before, p));
    }
  }

  lemma DecryptStepEquation(mode: int, k: Keyed, before: Bytes, c: Bytes)
    requires k.Legal() && |before| == |c| == k.Size()
    ensures mode == 1 || mode == 2 ==> ModeEquation(mode, k, before, DecryptStep(mode, k, before, c), c)
    ensures mode != 1 && mode != 2 ==> DecryptStep(mode, k, before, c) == DecryptedBlock(k.key, k.nb, c)
  {
    hide EncryptedBlock, DecryptedBlock;
    forall j | 0 <= j < k.Size()
      ensures before[j] ^ (DecryptedBlock(k.key, k.nb, c)[j] ^ before[j]) == DecryptedBlock(k.key, k.nb, c)[j]
      ensures EncryptedBlock(k.key, k.nb, before)[j] ^ (EncryptedBlock(k.key, k.nb, before)[j] ^ c[j]) == c[j]
    {
      XorTwice(before[j], DecryptedBlock(k.key, k.nb, c)[j]);
      XorTwice(EncryptedBlock(k.key, k.nb, before)[j], c[j]);
    }
  }

  lemma XorTwice(a: bv8, b: bv8)
    ensures a ^ (b ^ a) == b && a ^ (a ^ b) == b
  {}

  /** Every block that is put out meets the equation of its mode with its neighbour, and the chain
      left is the last block put out, or in ECB the one there was. */
  lemma {:induction false} EncryptedMeetsEquations(mode: int, k: Keyed, chain: Bytes, ps: seq<Bytes>)
    requires k.Legal() && |chain| == k.Size() && Blocks(k, ps)
    ensures var r := Encrypted(mode, k, chain, ps);
            && (forall i | 0 <= i < |ps| :: ModeEquation(mode, k, Link(mode, chain, r.out, i), ps[i], r.out[i]))
            && r.chain == Link(mode, chain, r.out, |ps|)
  {
    hide ModeEquation, EncryptStep;
    if ps != [] {
      var n := |ps| - 1;
      var r, before := Encrypted(mode, k, chain, ps), Encrypted(mode, k, chain, ps[..n]);
      EncryptedMeetsEquations(mode, k, chain, ps[..n]);
      EncryptStepEquation(mode, k, before.chain, ps[n]);
      assert r.out == before.out + [EncryptStep(mode, k, before.chain, ps[n])];
      forall i | 0 <= i <= n
        ensures Before(chain, r.out, i) == Before(chain, before.out, i)
      {
      }
    }
  }

  lemma {:induction false} DecryptedChain(mode: int, k: Keyed, chain: Bytes, cs: seq<Bytes>)
    requires k.Legal() && |chain| == k.Size() && Blocks(k, cs)
    ensures Decrypted(mode, k, chain, cs).chain == Link(mode, chain, cs, |cs|)
    decreases |cs|
  {
    hide DecryptStep;
    if cs != [] {
      DecryptedChain(mode, k, chain, cs[..|cs| - 1]);
    }
  }

  /** Decryption: each block depends on its ciphertext block and the one before, and on nothing else;
      for CBC and CFB it is the one that meets the equation, for ECB the decrypted block. */
  lemma {:induction false} DecryptedMeetsEquations(mode: int, k: Keyed, chain: Bytes, cs: seq<Bytes>, i: nat)
    requires k.Legal() && |chain| == k.Size() && Blocks(k, cs) && i < |cs|
    ensures |Link(mode, chain, cs, i)| == k.Size()
    ensures Decrypted(mode, k, chain, cs).out[i] == DecryptStep(mode, k, Link(mode, chain, cs, i), cs[i])
    decreases |cs|
  {
    hide DecryptStep;
    var n := |cs| - 1;
    assert Link(mode, chain, cs, i) == Link(mode, chain, cs[..n], i);
    if i < n {
      DecryptedMeetsEquations(mode, k, chain, cs[..n], i);
    } else {
      DecryptedChain(mode, k, chain, cs[..n]);
    }
  }

  /** A garbled ciphertext block spoils its own block and the next one only: where two ciphertexts
      agree in a block and the one before it, so do the plaintexts. */
  lemma ErrorsDoNotSpread(mode: int, k: Keyed, chain: Bytes, cs: seq<Bytes>, ds: seq<Bytes>, i: nat)
    requires k.Legal() && |chain| == k.Size() && Blocks(k, cs) && Blocks(k, ds)
    requires 0 < i < |cs| && i < |ds| && cs[i - 1] == ds[i - 1] && cs[i] == ds[i]
    ensures Decrypted(mode, k, chain, cs).out[i] == Decrypted(mode, k, chain, ds).out[i]
  {
    hide DecryptStep;
    DecryptedMeetsEquations(mode, k, chain, cs, i);
    DecryptedMeetsEquations(mode, k, chain, ds, i);
  }

  /** The first n blocks of a buffer. */
  function BlocksOf(b: Bytes, size: nat, n: nat): (bs: seq<Bytes>)
    requires Start(size, n) <= |b|
    ensures |bs| == n && forall i | 0 <= i < n :: |bs[i]| == size
    decreases n
  {
    if n == 0 then []
    else
      StartNext(size, n - 1, n);
      BlocksOf(b, size, n - 1) + [b[Start(size, n - 1)..Start(size, n)]]
  }

  /** Replacing block n leaves the first n blocks alone. */
  lemma {:induction false} SplicedBlocks(b: Bytes, size: nat, i: nat, at: nat, c: Bytes)
    requires Start(size, i) <= at && at + |c| <= |b|
    ensures BlocksOf(Splice(b, at, c), size, i) == BlocksOf(b, size, i)
  {
    hide Start, Splice;
    if i > 0 {
      StartNext(size, i - 1, i);
      SplicedBlocks(b, size, i - 1, at, c);
      SplicedFront(b, at, c, Start(size, i - 1), Start(size, i));
    }
  }

  lemma SplicedFront(b: Bytes, at: nat, c: Bytes, from: nat, end: nat)
    requires from <= end <= at && at + |c| <= |b|
    ensures Splice(b, at, c)[from..end] == b[from..end]
  {}

  lemma SplicedNextBlock(b: Bytes, size: nat, i: nat, c: Bytes)
    requires |c| == size && Start(size, i + 1) <= |b|
    ensures Start(size, i) + size == Start(size, i + 1)
    ensures BlocksOf(Splice(b, Start(size, i), c), size, i + 1) == BlocksOf(b, size, i) + [c]
  {
    StartNext(size, i, i + 1);
    SplicedBlocks(b, size, i, Start(size, i), c);
  }

  lemma NextBlock(b: Bytes, size: nat, i: nat)
    requires Start(size, i) <= Start(size, i + 1) <= |b|
    ensures BlocksOf(b, size, i + 1) == BlocksOf(b, size, i) + [b[Start(size, i)..Start(size, i + 1)]]
  {}

  lemma NoBlocks(b: Bytes, size: nat)
    ensures Start(size, 0) == 0 && BlocksOf(b, size, 0) == []
  {}

  lemma EncryptedNone(mode: int, k: Keyed, chain: Bytes)
    requires k.Legal() && |chain| == k.Size()
    ensures Encrypted(mode, k, chain, []) == Run([], chain)
  {}

  lemma DecryptedNone(mode: int, k: Keyed, chain: Bytes)
    requires k.Legal() && |chain| == k.Size()
    ensures Decrypted(mode, k, chain, []) == Run([], chain)
  {}

  lemma EncryptedNext(mode: int, k: Keyed, chain: Bytes, ps: seq<Bytes>, p: Bytes)
    requires k.Legal() && |chain| == |p| == k.Size() && Blocks(k, ps)
    ensures var before := Encrypted(mode, k, chain, ps);
            var c := EncryptStep(mode, k, before.chain, p);
            Blocks(k, ps + [p]) &&
            Encrypted(mode, k, chain, ps + [p]) == Run(before.out + [c], NextChain(mode, before.chain, c))
  {
    hide EncryptStep, NextChain;
    assert (ps + [p])[..|ps|] == ps;
  }

  lemma DecryptedNext(mode: int, k: Keyed, chain: Bytes, cs: seq<Bytes>, c: Bytes)
    requires k.Legal() && |chain| == |c| == k.Size() && Blocks(k, cs)
    ensures var before := Decrypted(mode, k, chain, cs);
            Blocks(k, cs + [c]) &&
            Decrypted(mode, k, chain, cs + [c]) == Run(before.out + [DecryptStep(mode, k, before.chain, c)], NextChain(mode, before.chain, c))
  {
    hide DecryptStep, NextChain;
    assert (cs + [c])[..|cs|] == cs;
  }
}
