/** The block functions of an AES link (opdi_aes.cpp): one cipher object for the configured key, made
    when it is first needed. */
module OpdiAes {
  import opened AesLink
  import opened Constants
  import opened EncryptedWire
  import opened Rijndael
  import opened RijndaelBlocks
  import opened RijndaelCipher
  import opened Sequences

  class AesFunctions {
    /** opdi_encryption_key and OPDI_ENCRYPTION_BLOCKSIZE. */
    const encryptionKey: Bytes
    const blocksize: nat

    var rijndael: CRijndael?

    /** The key has the length of a block, and the cipher takes blocks of that length. */
    predicate Usable() { |encryptionKey| == blocksize && LegalSize(blocksize) }

    ghost predicate Valid()
      reads this, rijndael, if rijndael == null then {} else {rijndael.m_Ke, rijndael.m_Kd}
    {
      rijndael != null ==>
        && rijndael.Valid() && rijndael.m_bKeyInit == Usable()
        && (Usable() ==> rijndael.m_blockSize == blocksize && rijndael.key == ToWords(encryptionKey, blocksize / 4))
    }

    constructor (encryptionKey: Bytes, blocksize: nat)
      ensures Valid() && this.encryptionKey == encryptionKey && this.blocksize == blocksize
    {
      this.encryptionKey, this.blocksize := encryptionKey, blocksize;
      rijndael := null;
    }

    /** get_rijndael: the object stays without a key if the block length is not one of the cipher's. */
    method GetRijndael() returns (thrown: bool)
      requires Valid()
      modifies this
      ensures Valid() && (!thrown ==> rijndael != null) && (Usable() ==> !thrown)
      ensures old(rijndael) != null ==> rijndael == old(rijndael)
      ensures old(rijndael) == null && rijndael != null ==> fresh(rijndael) && fresh(rijndael.t) && fresh(rijndael.a)
    {
      if rijndael != null {
        return false;
      }
      if |encryptionKey| != blocksize {
        return true;
      }
      rijndael := new CRijndael();
      var zeros: Bytes := seq(blocksize, _ => 0);
      var o := rijndael.MakeKey(Key(encryptionKey), zeros, blocksize, blocksize);
      assert encryptionKey[..blocksize] == encryptionKey;
      return o.Thrown?;
    }

    /** opdi_encrypt_block: the destination gets the block enciphered under the configured key, or
        the call fails and leaves it alone. */
    method EncryptBlock(dest: array<bv8>, src: Bytes) returns (status: Status)
      requires Valid() && |src| == blocksize <= dest.Length
      modifies this, dest, if rijndael == null then {} else {rijndael.t, rijndael.a}
      ensures Valid() && status == if Usable() then OK else ENCRYPTION_ERROR
      ensures status == OK ==>
        && dest[..] == Splice(old(dest[..]), 0, EncryptedBlock(ToWords(encryptionKey, blocksize / 4), blocksize / 4, src))
        && FromBits(dest[..blocksize]) == AesEncrypt(ToWords(encryptionKey, blocksize / 4), FromBits(src))
      ensures status != OK ==> dest[..] == old(dest[..])
    {
      hide EncryptedBlock, ToWords;
      var thrown := GetRijndael();
      if thrown {
        return ENCRYPTION_ERROR;
      }
      var o := rijndael.EncryptBlock(src, dest, 0);
      if o.Thrown? {
        return ENCRYPTION_ERROR;
      }
      BytesRoundTrip(src);
      SpliceFront(old(dest[..]), EncryptedBlock(ToWords(encryptionKey, blocksize / 4), blocksize / 4, src));
      return OK;
    }

    /** opdi_decrypt_block. */
    method DecryptBlock(dest: array<bv8>, src: Bytes) returns (status: Status)
      requires Valid() && |src| == blocksize <= dest.Length
      modifies this, dest, if rijndael == null then {} else {rijndael.t, rijndael.a}
      ensures Valid() && status == if Usable() then OK else ENCRYPTION_ERROR
      ensures status == OK ==>
        && dest[..] == Splice(old(dest[..]), 0, DecryptedBlock(ToWords(encryptionKey, blocksize / 4), blocksize / 4, src))
        && FromBits(dest[..blocksize]) == AesDecrypt(ToWords(encryptionKey, blocksize / 4), FromBits(src))
      ensures status != OK ==> dest[..] == old(dest[..])
    {
      hide DecryptedBlock, ToWords;
      var thrown := GetRijndael();
      if thrown {
        return ENCRYPTION_ERROR;
      }
      var o := rijndael.DecryptBlock(src, dest, 0);
      if o.Thrown? {
        return ENCRYPTION_ERROR;
      }
      BytesRoundTrip(src);
      SpliceFront(old(dest[..]), DecryptedBlock(ToWords(encryptionKey, blocksize / 4), blocksize / 4, src));
      return OK;
    }
  }

  lemma SpliceFront(r: Bytes, b: Bytes)
    requires |b| <= |r|
    ensures Splice(r, 0, b)[..|b|] == b
  {
    assert r[..0] + b == b;
  }
}
