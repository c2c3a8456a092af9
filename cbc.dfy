/** `class CBC(key, iv)`: cipher block chaining over the `AES` object, with the chaining value
    kept in the mutable field `iv` and reassigned by `updateIV` after every block. Because the
    xor is a `zip`, a chunk is combined with only as many bytes of the chaining value as it has
    itself, and a chaining value shorter than the chunk cuts the chunk short. */
module Cbc {
  import opened Wrappers
  import opened Bytes
  import opened Aes

  /** The blocks the encrypt `map` emits for these chunks, starting from chaining value iv, and
      the chaining value it leaves behind: the last block, or iv itself when there is none. */
  function EncryptChain(c: BlockCipher, key: Bytes, iv: Bytes, chunks: seq<Bytes>): (r: (seq<Bytes>, Bytes))
    ensures |r.0| == |chunks|
    ensures r.1 == if |chunks| == 0 then iv else r.0[|chunks| - 1]
    decreases |chunks|
  {
    if |chunks| == 0 then ([], iv)
    else
      var block := Aes.Encrypt(c, Xor(chunks[0], iv), key);
      var rest := EncryptChain(c, key, block, chunks[1..]);
      ([block] + rest.0, rest.1)
  }

  /** The parts the decrypt `map` recovers, before `flatMap`, and the chaining value it leaves.
      The map fails as soon as a block fails to decrypt, after the chaining value has moved past
      the blocks before it; when it succeeds, the chaining value is the last ciphertext block. */
  function DecryptChain(c: BlockCipher, key: Bytes, iv: Bytes, blocks: seq<Bytes>): (r: (Option<seq<Bytes>>, Bytes))
    ensures r.0.Some? <==> forall i :: 0 <= i < |blocks| ==> Aes.Decrypt(c, blocks[i], key).Some?
    ensures r.0.Some? ==> |r.0.value| == |blocks|
    ensures r.0.Some? ==> r.1 == if |blocks| == 0 then iv else blocks[|blocks| - 1]
    decreases |blocks|
  {
    if |blocks| == 0 then (Some([]), iv)
    else
      match Aes.Decrypt(c, blocks[0], key)
      case None => (None, iv)
      case Some(plain) =>
        var rest := DecryptChain(c, key, blocks[0], blocks[1..]);
        Join([Xor(plain, iv)], rest)
  }

  /** Parts already recovered, put in front of the outcome of the remaining blocks. */
  function Join(parts: seq<Bytes>, rest: (Option<seq<Bytes>>, Bytes)): (Option<seq<Bytes>>, Bytes)
  {
    (if rest.0.None? then None else Some(parts + rest.0.value), rest.1)
  }

  /** `CBC(key, iv).encrypt(msg)` on a fresh instance: blocks and the new chaining value. */
  function CbcEncrypt(c: BlockCipher, key: Bytes, iv: Bytes, msg: Bytes): (seq<Bytes>, Bytes)
  {
    EncryptChain(c, key, iv, Chunks(msg))
  }

  /** `CBC(key, iv).decrypt(blocks)` on a fresh instance: the message (None when AES fails on
      a block) and the new chaining value. */
  function CbcDecrypt(c: BlockCipher, key: Bytes, iv: Bytes, blocks: seq<Bytes>): (Option<Bytes>, Bytes)
  {
    var r := DecryptChain(c, key, iv, blocks);
    (if r.0.None? then None else Some(Flatten(r.0.value)), r.1)
  }

  class CbcCipher {
    const cipher: BlockCipher
    const key: Bytes
    var iv: Bytes

    constructor (cipher: BlockCipher, key: Bytes, iv: Bytes)
      ensures this.cipher == cipher && this.key == key && this.iv == iv
    {
      this.cipher := cipher;
      this.key := key;
      this.iv := iv;
    }

    /** `updateIV(newIV)`. */
    method UpdateIv(newIv: Bytes)
      modifies this
      ensures iv == newIv
    {
      iv := newIv;
    }

    /** `encrypt(msg)`: each chunk is xored with the chaining value, encrypted, and becomes the
        next chaining value. */
    method Encrypt(msg: Bytes) returns (blocks: seq<Bytes>)
      modifies this
      ensures (blocks, iv) == CbcEncrypt(cipher, key, old(iv), msg)
    {
      var chunks := Chunks(msg);
      blocks := [];
      assert chunks[0..] == chunks;
      for i := 0 to |chunks|
        invariant blocks + EncryptChain(cipher, key, iv, chunks[i..]).0 == EncryptChain(cipher, key, old(iv), chunks).0
        invariant EncryptChain(cipher, key, iv, chunks[i..]).1 == EncryptChain(cipher, key, old(iv), chunks).1
      {
        var xored := Xor(chunks[i], iv);
        var newBlock := Aes.Encrypt(cipher, xored, key);
        var rest := EncryptChain(cipher, key, newBlock, chunks[i + 1..]);
        assert chunks[i..][1..] == chunks[i + 1..];
        assert EncryptChain(cipher, key, iv, chunks[i..]) == ([newBlock] + rest.0, rest.1);
        assert blocks + ([newBlock] + rest.0) == (blocks + [newBlock]) + rest.0;
        UpdateIv(newBlock);
        blocks := blocks + [newBlock];
      }
      assert chunks[|chunks|..] == [];
      assert blocks + [] == blocks;
    }

    /** `decrypt(blocks)`: each block is decrypted and xored with the chaining value, and then
        the ciphertext block (not the plaintext) becomes the next chaining value. */
    method Decrypt(blocks: seq<Bytes>) returns (msg: Option<Bytes>)
      modifies this
      ensures (msg, iv) == CbcDecrypt(cipher, key, old(iv), blocks)
    {
      var parts: seq<Bytes> := [];
      assert blocks[0..] == blocks;
      JoinNothing(DecryptChain(cipher, key, iv, blocks));
      for i := 0 to |blocks|
        invariant Join(parts, DecryptChain(cipher, key, iv, blocks[i..])) == DecryptChain(cipher, key, old(iv), blocks)
      {
        var newBlock := Aes.Decrypt(cipher, blocks[i], key);
        assert blocks[i..][0] == blocks[i] && blocks[i..][1..] == blocks[i + 1..];
        if newBlock.None? {
          assert DecryptChain(cipher, key, iv, blocks[i..]) == (None, iv);
          msg := None;
          return;
        }
        var xored := Xor(newBlock.value, iv);
        var rest := DecryptChain(cipher, key, blocks[i], blocks[i + 1..]);
        assert DecryptChain(cipher, key, iv, blocks[i..]) == Join([xored], rest);
        JoinJoin(parts, [xored], rest);
        UpdateIv(blocks[i]);
        parts := parts + [xored];
      }
      assert blocks[|blocks|..] == [];
      assert parts + [] == parts;
      msg := Some(Flatten(parts));
    }
  }

  lemma {:induction false} JoinNothing(rest: (Option<seq<Bytes>>, Bytes))
    ensures Join([], rest) == rest
  {
    if rest.0.Some? {
      assert [] + rest.0.value == rest.0.value;
    }
  }

  lemma {:induction false} JoinJoin(first: seq<Bytes>, second: seq<Bytes>, rest: (Option<seq<Bytes>>, Bytes))
    ensures Join(first, Join(second, rest)) == Join(first + second, rest)
  {
    if rest.0.Some? {
      assert first + (second + rest.0.value) == (first + second) + rest.0.value;
    }
  }

  /** Chaining on the encrypt path: block 0 encrypts chunk 0 xored with the seed, and block i > 0
      encrypts chunk i xored with block i-1. */
  lemma {:induction false} EncryptChainAt(c: BlockCipher, key: Bytes, iv: Bytes, chunks: seq<Bytes>, i: nat)
    requires i < |chunks|
    ensures EncryptChain(c, key, iv, chunks).0[i] ==
      Aes.Encrypt(c, Xor(chunks[i], if i == 0 then iv else EncryptChain(c, key, iv, chunks).0[i - 1]), key)
    decreases i
  {
    if i > 0 {
      var block := Aes.Encrypt(c, Xor(chunks[0], iv), key);
      EncryptChainAt(c, key, block, chunks[1..], i - 1);
    }
  }

  /** Chunk i > 0 is xored with only the first |chunk i| bytes of block i-1, which is never
      shorter than a block. */
  lemma {:induction false} EncryptChainPrefixAt(c: BlockCipher, key: Bytes, iv: Bytes, chunks: seq<Bytes>, i: nat)
    requires Invertible(c)
    requires 0 < i < |chunks| && |chunks[i]| <= BlockSize
    ensures |chunks[i]| <= |EncryptChain(c, key, iv, chunks).0[i - 1]|
    ensures EncryptChain(c, key, iv, chunks).0[i] ==
      Aes.Encrypt(c, Xor(chunks[i], EncryptChain(c, key, iv, chunks).0[i - 1][..|chunks[i]|]), key)
  {
    var blocks := EncryptChain(c, key, iv, chunks).0;
    EncryptChainAt(c, key, iv, chunks, i - 1);
    EncryptChainAt(c, key, iv, chunks, i);
    XorUsesPrefix(chunks[i], blocks[i - 1]);
  }

  /** CBC chaining state on the encrypt path: chunk 0 is xored with the seed, chunk i > 0 with the
      first |chunk i| bytes of ciphertext block i-1, and the `iv` field ends as the last block
      (unchanged for an empty message). */
  lemma {:induction false} CbcEncryptChaining(c: BlockCipher, key: Bytes, iv: Bytes, msg: Bytes)
    requires Invertible(c)
    ensures |CbcEncrypt(c, key, iv, msg).0| == |Chunks(msg)|
    ensures |Chunks(msg)| > 0 ==>
      CbcEncrypt(c, key, iv, msg).0[0] == Aes.Encrypt(c, Xor(Chunks(msg)[0], iv), key)
    ensures forall i :: 0 < i < |Chunks(msg)| ==>
      |Chunks(msg)[i]| <= |CbcEncrypt(c, key, iv, msg).0[i - 1]| &&
      CbcEncrypt(c, key, iv, msg).0[i] ==
        Aes.Encrypt(c, Xor(Chunks(msg)[i], CbcEncrypt(c, key, iv, msg).0[i - 1][..|Chunks(msg)[i]|]), key)
    ensures CbcEncrypt(c, key, iv, msg).1 ==
      if |msg| == 0 then iv else CbcEncrypt(c, key, iv, msg).0[|Chunks(msg)| - 1]
  {
    var chunks := Chunks(msg);
    ChunksShape(msg);
    if |chunks| > 0 {
      EncryptChainAt(c, key, iv, chunks, 0);
    }
    forall i | 0 < i < |chunks|
      ensures |chunks[i]| <= |EncryptChain(c, key, iv, chunks).0[i - 1]|
      ensures EncryptChain(c, key, iv, chunks).0[i] ==
        Aes.Encrypt(c, Xor(chunks[i], EncryptChain(c, key, iv, chunks).0[i - 1][..|chunks[i]|]), key)
    {
      EncryptChainPrefixAt(c, key, iv, chunks, i);
    }
  }

  /** Chaining on the decrypt path: part i is the decryption of block i xored with the seed
      (i = 0) or with block i-1. */
  lemma {:induction false} DecryptChainAt(c: BlockCipher, key: Bytes, iv: Bytes, blocks: seq<Bytes>, i: nat)
    requires i < |blocks|
    requires DecryptChain(c, key, iv, blocks).0.Some?
    ensures DecryptChain(c, key, iv, blocks).0.value[i] ==
      Xor(Aes.Decrypt(c, blocks[i], key).value, if i == 0 then iv else blocks[i - 1])
    decreases i
  {
    var plain := Aes.Decrypt(c, blocks[0], key).value;
    var rest := DecryptChain(c, key, blocks[0], blocks[1..]);
    assert DecryptChain(c, key, iv, blocks) == Join([Xor(plain, iv)], rest);
    if i > 0 {
      assert blocks[1..][i - 1] == blocks[i];
      DecryptChainAt(c, key, blocks[0], blocks[1..], i - 1);
      if i > 1 {
        assert blocks[1..][i - 2] == blocks[i - 1];
      }
      assert DecryptChain(c, key, iv, blocks).0.value[i] == rest.0.value[i - 1];
    }
  }

  /** Decryption undoes encryption chunk by chunk, provided the seed is at least as long as the
      first chunk and no chunk is longer than a block (later chaining values are AES outputs,
      which are never shorter than a block); both ends finish on the same chaining value. */
  lemma {:induction false} ChainRoundTrip(c: BlockCipher, key: Bytes, iv: Bytes, chunks: seq<Bytes>)
    requires Invertible(c)
    requires forall i :: 0 <= i < |chunks| ==> |chunks[i]| <= BlockSize
    requires |chunks| > 0 ==> |chunks[0]| <= |iv|
    ensures DecryptChain(c, key, iv, EncryptChain(c, key, iv, chunks).0)
            == (Some(chunks), EncryptChain(c, key, iv, chunks).1)
    decreases |chunks|
  {
    if |chunks| > 0 {
      var x := Xor(chunks[0], iv);
      var block := Aes.Encrypt(c, x, key);
      var rest := EncryptChain(c, key, block, chunks[1..]);
      var blocks := [block] + rest.0;
      assert EncryptChain(c, key, iv, chunks).0 == blocks;
      AesRoundTrip(c, x, key);
      XorTwice(chunks[0], iv);
      assert Xor(x, iv) == chunks[0];
      ChainRoundTrip(c, key, block, chunks[1..]);
      assert blocks[1..] == rest.0;
      assert [chunks[0]] + chunks[1..] == chunks;
    }
  }

  /** CBC round trip: a fresh instance decrypting what another fresh instance with the same seed
      encrypted returns the message exactly when the seed is at least as long as the first chunk
      (16 bytes, or the whole message if shorter); then both end on the same chaining value. */
  lemma {:induction false} CbcRoundTrip(c: BlockCipher, key: Bytes, iv: Bytes, msg: Bytes)
    requires Invertible(c)
    ensures CbcDecrypt(c, key, iv, CbcEncrypt(c, key, iv, msg).0).0 == Some(msg)
            <==> |iv| >= Min(BlockSize, |msg|)
    ensures |iv| >= Min(BlockSize, |msg|) ==>
      CbcDecrypt(c, key, iv, CbcEncrypt(c, key, iv, msg).0).1 == CbcEncrypt(c, key, iv, msg).1
  {
    var chunks := Chunks(msg);
    ChunksShape(msg);
    if |iv| >= Min(BlockSize, |msg|) {
      ChainRoundTrip(c, key, iv, chunks);
    } else {
      var n := Min(BlockSize, |msg|);
      assert chunks[0] == msg[..n];
      var x := Xor(chunks[0], iv);
      var block := Aes.Encrypt(c, x, key);
      var rest := EncryptChain(c, key, block, chunks[1..]);
      assert EncryptChain(c, key, iv, chunks).0 == [block] + rest.0;
      AesRoundTrip(c, x, key);
      XorTwice(chunks[0], iv);
      ChainRoundTrip(c, key, block, chunks[1..]);
      assert ([block] + rest.0)[1..] == rest.0;
      var parts := [chunks[0][..|iv|]] + chunks[1..];
      assert DecryptChain(c, key, iv, [block] + rest.0).0 == Some(parts);
      assert Flatten(chunks) == chunks[0] + Flatten(chunks[1..]);
      assert Flatten(parts) == chunks[0][..|iv|] + Flatten(chunks[1..]);
      assert |Flatten(parts)| < |msg|;
    }
  }

  /** What A and B do with CBC in one session: each side builds its own `CBC(key, IV)` from the
      same 16-byte IV; B's instance decrypts A's blocks back to the message, and both `iv` fields
      end as the last ciphertext block. */
  method EncryptThenDecrypt(c: BlockCipher, key: Bytes, iv: Bytes, msg: Bytes)
    returns (blocks: seq<Bytes>, recovered: Option<Bytes>, senderIv: Bytes, receiverIv: Bytes)
    requires Invertible(c)
    requires |iv| == BlockSize
    ensures blocks == CbcEncrypt(c, key, iv, msg).0
    ensures recovered == Some(msg)
    ensures senderIv == receiverIv == if |blocks| == 0 then iv else blocks[|blocks| - 1]
  {
    var sender := new CbcCipher(c, key, iv);
    var receiver := new CbcCipher(c, key, iv);
    blocks := sender.Encrypt(msg);
    recovered := receiver.Decrypt(blocks);
    senderIv, receiverIv := sender.iv, receiver.iv;
    CbcRoundTrip(c, key, iv, msg);
  }
}
