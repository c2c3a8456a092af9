/** `class ECB(key)`: every chunk of the message goes through the `AES` object on its own. */
module Ecb {
  import opened Wrappers
  import opened Bytes
  import opened Aes

  /** `ECB(key).encrypt(msg)`: `chunked(16)`, then `AES.encrypt` of every chunk. */
  function EcbEncrypt(c: BlockCipher, key: Bytes, msg: Bytes): seq<Bytes>
  {
    var chunks := Chunks(msg);
    seq(|chunks|, i requires 0 <= i < |chunks| => Encrypt(c, chunks[i], key))
  }

  /** `msg.map { block -> AES.decrypt(block, key) }`: the first block that fails to decrypt
      makes the whole call fail; otherwise every block is decrypted, in order. */
  function DecryptEach(c: BlockCipher, key: Bytes, blocks: seq<Bytes>): (r: Option<seq<Bytes>>)
    ensures r.Some? <==> forall i :: 0 <= i < |blocks| ==> Decrypt(c, blocks[i], key).Some?
    ensures r.Some? ==> |r.value| == |blocks|
    ensures r.Some? ==> forall i :: 0 <= i < |blocks| ==> r.value[i] == Decrypt(c, blocks[i], key).value
    decreases |blocks|
  {
    if |blocks| == 0 then Some([])
    else
      match Decrypt(c, blocks[0], key)
      case None => None
      case Some(first) =>
        match DecryptEach(c, key, blocks[1..])
        case None => None
        case Some(rest) => Some([first] + rest)
  }

  /** `ECB(key).decrypt(msg)`: decrypt every block, then concatenate (`flatMap`). */
  function EcbDecrypt(c: BlockCipher, key: Bytes, blocks: seq<Bytes>): Option<Bytes>
  {
    match DecryptEach(c, key, blocks)
    case None => None
    case Some(parts) => Some(Flatten(parts))
  }

  /** ECB structure: ceil(|msg|/16) blocks, and block i is the AES encryption of
      msg[16i .. min(16i+16, |msg|)] alone. */
  lemma {:induction false} EcbStructure(c: BlockCipher, key: Bytes, msg: Bytes)
    ensures |EcbEncrypt(c, key, msg)| == (|msg| + BlockSize - 1) / BlockSize
    ensures forall i :: 0 <= i < |EcbEncrypt(c, key, msg)| ==>
      EcbEncrypt(c, key, msg)[i] ==
        Encrypt(c, msg[BlockSize * i .. Min(BlockSize * i + BlockSize, |msg|)], key)
  {
    ChunksShape(msg);
  }

  /** No positional dependency: two messages whose i-th chunks are equal (in particular two
      equal chunks of one message) have equal i-th ciphertext blocks under the same key. */
  lemma {:induction false} EcbEqualChunksEqualBlocks(c: BlockCipher, key: Bytes, m1: Bytes, m2: Bytes, i: nat, j: nat)
    requires i < |Chunks(m1)| && j < |Chunks(m2)|
    requires Chunks(m1)[i] == Chunks(m2)[j]
    ensures i < |EcbEncrypt(c, key, m1)| && j < |EcbEncrypt(c, key, m2)|
    ensures EcbEncrypt(c, key, m1)[i] == EcbEncrypt(c, key, m2)[j]
  {
  }

  /** Decrypting any list of ciphertexts that AES produced from some chunks gives the chunks back. */
  lemma {:induction false} DecryptEachEncrypted(c: BlockCipher, key: Bytes, chunks: seq<Bytes>)
    requires Invertible(c)
    ensures DecryptEach(c, key, seq(|chunks|, i requires 0 <= i < |chunks| => Encrypt(c, chunks[i], key)))
            == Some(chunks)
  {
    var blocks := seq(|chunks|, i requires 0 <= i < |chunks| => Encrypt(c, chunks[i], key));
    forall i | 0 <= i < |chunks|
      ensures Decrypt(c, blocks[i], key) == Some(chunks[i])
    {
      AesRoundTrip(c, chunks[i], key);
    }
    var r := DecryptEach(c, key, blocks);
    assert r.Some?;
    assert r.value == chunks;
  }

  /** ECB round trip: `ECB(k).decrypt(ECB(k).encrypt(msg)) == msg`. */
  lemma {:induction false} EcbRoundTrip(c: BlockCipher, key: Bytes, msg: Bytes)
    requires Invertible(c)
    ensures EcbDecrypt(c, key, EcbEncrypt(c, key, msg)) == Some(msg)
  {
    DecryptEachEncrypted(c, key, Chunks(msg));
    ChunksShape(msg);
  }
}
