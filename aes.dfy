/** The `AES` object: `Cipher.getInstance("AES/ECB/PKCS5Padding")` applied to a whole byte array.
    The AES block transform itself belongs to the JVM's cryptographic provider; it is a parameter
    here, of which only one thing is assumed (Invertible). The padding the transformation string
    asks for is the model's own: the input is padded to whole blocks, every block is transformed
    on its own, and decryption removes the padding again or fails. */
module Aes {
  import opened Wrappers
  import opened Bytes

  /** A keyed transform of 16-byte blocks and its inverse. */
  datatype BlockCipher = BlockCipher(encryptBlock: (Bytes, Bytes) -> Bytes,
                                     decryptBlock: (Bytes, Bytes) -> Bytes)

  /** What the provider's AES is trusted to be: under every key, both directions map 16-byte
      blocks to 16-byte blocks, and decryption undoes encryption. */
  ghost predicate Invertible(c: BlockCipher)
  {
    (forall block: Bytes, key: Bytes :: |block| == BlockSize ==>
      |c.encryptBlock(block, key)| == BlockSize &&
      c.decryptBlock(c.encryptBlock(block, key), key) == block) &&
    (forall block: Bytes, key: Bytes :: |block| == BlockSize ==>
      |c.decryptBlock(block, key)| == BlockSize)
  }

  /** PKCS#5 padding: p copies of the byte p, where p = 16 - |b| mod 16 lies in 1..16;
      the result is the next whole number of blocks, strictly longer than b. */
  function Pad(b: Bytes): (r: Bytes)
    ensures |r| == BlockSize * (|b| / BlockSize + 1)
    ensures r[..|b|] == b
  {
    var p := BlockSize - |b| % BlockSize;
    b + seq(p, _ => p)
  }

  /** PKCS#5 unpadding as the provider does it: nothing to strip from an empty input; otherwise
      the last byte p must lie in 1..16, the input must hold p bytes, and the last p bytes must
      all equal p, or decryption fails with a padding error. */
  function Unpad(x: Bytes): (r: Option<Bytes>)
    ensures r.Some? ==> |r.value| <= |x| && r.value == x[..|r.value|]
  {
    if |x| == 0 then Some([])
    else
      var p := x[|x| - 1];
      if 1 <= p <= BlockSize && p <= |x| && forall i | |x| - p <= i < |x| :: x[i] == p
      then Some(x[..|x| - p])
      else None
  }

  /** The ECB pass of the transformation: every 16-byte block encrypted on its own. */
  function EncryptBlocks(c: BlockCipher, x: Bytes, key: Bytes): (r: Bytes)
    requires |x| % BlockSize == 0
    ensures Invertible(c) ==> |r| == |x|
    decreases |x|
  {
    if |x| == 0 then []
    else c.encryptBlock(x[..BlockSize], key) + EncryptBlocks(c, x[BlockSize..], key)
  }

  /** The ECB pass of decryption. */
  function DecryptBlocks(c: BlockCipher, x: Bytes, key: Bytes): (r: Bytes)
    requires |x| % BlockSize == 0
    ensures Invertible(c) ==> |r| == |x|
    decreases |x|
  {
    if |x| == 0 then []
    else c.decryptBlock(x[..BlockSize], key) + DecryptBlocks(c, x[BlockSize..], key)
  }

  /** `AES.encrypt(block, key)`: pad, then encrypt block by block. The result is always one block
      longer than the whole blocks of the input, so a full 16-byte chunk becomes 32 bytes. */
  function Encrypt(c: BlockCipher, block: Bytes, key: Bytes): (r: Bytes)
    ensures Invertible(c) ==> |r| == BlockSize * (|block| / BlockSize + 1)
    ensures Invertible(c) ==> |r| > |block| && |r| % BlockSize == 0
  {
    EncryptBlocks(c, Pad(block), key)
  }

  /** `AES.decrypt(encryptedBlock, key)`: an input that is not a whole number of blocks fails
      (illegal block size), then the blocks are decrypted and the padding removed, which may
      fail too (bad padding). */
  function Decrypt(c: BlockCipher, encrypted: Bytes, key: Bytes): Option<Bytes>
  {
    if |encrypted| % BlockSize != 0 then None
    else Unpad(DecryptBlocks(c, encrypted, key))
  }

  /** Block by block, decryption undoes encryption. */
  lemma {:induction false} DecryptEncryptBlocks(c: BlockCipher, x: Bytes, key: Bytes)
    requires Invertible(c)
    requires |x| % BlockSize == 0
    ensures |EncryptBlocks(c, x, key)| % BlockSize == 0
    ensures DecryptBlocks(c, EncryptBlocks(c, x, key), key) == x
    decreases |x|
  {
    if |x| > 0 {
      var head := c.encryptBlock(x[..BlockSize], key);
      var tail := EncryptBlocks(c, x[BlockSize..], key);
      DecryptEncryptBlocks(c, x[BlockSize..], key);
      var e := head + tail;
      assert e[..BlockSize] == head && e[BlockSize..] == tail;
      assert x == x[..BlockSize] + x[BlockSize..];
    }
  }

  /** The padding is always removed again. */
  lemma {:induction false} UnpadPad(b: Bytes)
    ensures Unpad(Pad(b)) == Some(b)
  {
    var r := Pad(b);
    var p := BlockSize - |b| % BlockSize;
    assert r == b + seq(p, _ => p);
    assert r[|r| - 1] == p;
    assert forall i | |r| - p <= i < |r| :: r[i] == p;
  }

  /** The inverse law of the `AES` object: decrypting what was encrypted under the same key gives
      back the original bytes, for inputs of every length. */
  lemma {:induction false} AesRoundTrip(c: BlockCipher, block: Bytes, key: Bytes)
    requires Invertible(c)
    ensures Decrypt(c, Encrypt(c, block, key), key) == Some(block)
  {
    DecryptEncryptBlocks(c, Pad(block), key);
    UnpadPad(block);
  }
}
