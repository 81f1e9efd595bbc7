/** The encrypted link with the cipher the implementations use for it (opdi_aes.cpp): Rijndael on
    single blocks, with a key as long as a block. */
module AesLink {
  import opened Constants
  import opened Wire
  import opened EncryptedWire
  import opened RijndaelCipher
  import opened RijndaelBlocks

  // ------------------------------------------------------------ bytes as numbers and as bits

  function ToBits(s: seq<byte>): (r: seq<bv8>)
    ensures |r| == |s|
  {
    seq(|s|, i requires 0 <= i < |s| => s[i] as bv8)
  }

  function FromBits(s: seq<bv8>): (r: seq<byte>)
    ensures |r| == |s|
  {
    seq(|s|, i requires 0 <= i < |s| => s[i] as int)
  }

  lemma NextBits(v: bv8)
    requires v != 255
    ensures (v + 1) as int == v as int + 1
  {}

  lemma {:induction false} SomeBits(b: byte) returns (v: bv8)
    ensures v as int == b
  {
    v := 0;
    if b > 0 {
      var w := SomeBits(b - 1);
      NextBits(w);
      v := w + 1;
    }
  }

  lemma BitsOfByte(b: byte)
    ensures (b as bv8) as int == b
  {
    var v := SomeBits(b);
  }

  lemma BitsRoundTrip(s: seq<byte>)
    ensures FromBits(ToBits(s)) == s
  {
    forall i | 0 <= i < |s|
      ensures FromBits(ToBits(s))[i] == s[i]
    {
      BitsOfByte(s[i]);
    }
  }

  lemma BytesRoundTrip(s: seq<bv8>)
    ensures ToBits(FromBits(s)) == s
  {}

  // ------------------------------------------------------------ the cipher of the link

  /** opdi_encrypt_block for the schedule of the key. */
  function AesEncrypt(key: State, block: Block): Block
    requires Columns(|key|)
  {
    if |block| == 4 * |key| then FromBits(EncryptedBlock(key, |key|, ToBits(block))) else block
  }

  /** opdi_decrypt_block. */
  function AesDecrypt(key: State, block: Block): Block
    requires Columns(|key|)
  {
    if |block| == 4 * |key| then FromBits(DecryptedBlock(key, |key|, ToBits(block))) else block
  }

  lemma AesInverts(key: State)
    requires Columns(|key|)
    ensures Inverts(block => AesDecrypt(key, block), block => AesEncrypt(key, block), 4 * |key|)
  {
    hide EncryptedBlock, DecryptedBlock;
    forall x: Block | |x| == 4 * |key|
      ensures AesDecrypt(key, AesEncrypt(key, x)) == x
    {
      var c := EncryptedBlock(key, |key|, ToBits(x));
      BytesRoundTrip(c);
      BlockRoundTrip(key, |key|, ToBits(x));
      BitsRoundTrip(x);
    }
  }

  /** Whatever the key: messages sent over the AES link arrive in order and unchanged. */
  lemma AesSentIsReceived(key: State, ps: seq<Padded>, bufs: seq<seq<byte>>, rest: seq<byte>, size: nat)
    requires ValidSize(size) && Columns(|key|)
    requires forall i | 0 <= i < |ps| :: Fits(ps[i], 4 * |key|, size)
    requires |bufs| == |ps| && forall i | 0 <= i < |bufs| :: |bufs[i]| == size
    ensures BlockFunction(block => AesDecrypt(key, block), 4 * |key|)
    ensures CollectedBlocks(block => AesDecrypt(key, block), 4 * |key|, bufs,
                            SentBlocks(block => AesEncrypt(key, block), 4 * |key|, ps, size) + rest, size) == (Messages(ps), rest)
  {
    hide CollectedBlocks, SentBlocks, Fits, AesDecrypt, AesEncrypt;
    AesInverts(key);
    EncryptedSentIsReceived(block => AesEncrypt(key, block), block => AesDecrypt(key, block), 4 * |key|, ps, bufs, rest, size);
  }
}
