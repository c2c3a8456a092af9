# TemaSI key exchange and block-mode transfer, modelled in Dafny

This project models the core of `src/main/kotlin/Main.kt`. Three roles talk over pipes:

- the key manager KM;
- the sender A;
- the receiver B.

A chooses a mode, 1 for ECB or anything else for CBC. It tells B and KM. KM answers with a session key (K1 or K2) encrypted under the shared key K3. A unwraps the key and relays the wrapped key to B. B unwraps it and acknowledges with "OK". A then sends the payload encrypted in the chosen mode: a block count, then one frame per block. B decrypts the blocks.

The project has these modules:

- `Bytes`: bytes, the `chunked(16)` split, `flatMap` concatenation (`Flatten`), and the `zip`-based byte-wise xor, which stops at the shorter operand.
- `IntCodec`: the integer wire encodings.
  - `BigInteger.toByteArray()` and `BigInteger(bytes)`: minimal two's complement; the constructor fails on an empty array.
  - `BigInteger.toInt()`: keeps the low 32 bits.
  - `ByteBuffer.putInt` / `getInt`.
  - `Int.toByte()` / `Byte.toInt()`.
- `Framing`: the pipe ends (`ByteSource` with its read cursor, `ByteSink` with what was written), `sendMessage` and `receiveMessage`.
  - `receiveMessage` is modelled with its quirks:
    - the header's 32-bit `size - 1`;
    - a declared length from -2^31+1 to 0 still takes one byte, while -2^31 makes `size - 1` wrap round and asks for 2^31 bytes;
    - a stream that ends early gives an empty array.
  - `Deframe` is the function that specifies `receiveMessage`. `Loop` is its byte loop written as a tail-recursive function.
  - The KM copies `sendMessageKM` and `receiveMessageKM` run the same code, so the same members model them.
- `Aes`: the `AES` object, i.e. `AES/ECB/PKCS5Padding` over a whole byte array.
  - PKCS#5 padding and unpadding are modelled concretely, with the failure cases of decryption (illegal block size, bad padding).
  - The 16-byte block transform is a parameter (`BlockCipher`). Lemmas that need it to work require `Invertible`.
- `Ecb`: `class ECB`.
- `Cbc`: `class CBC`, as a Dafny class whose field `iv` is reassigned by `UpdateIv`.
  - Its `Encrypt` and `Decrypt` methods loop over chunks and blocks as the two `map`s do.
  - Each method is proved equal to a chaining function (`EncryptChain`, `DecryptChain`).
- `Protocol`: mode selection, KM, A's `transmitData` (as methods that write to a `ByteSink`), and B's two halves. A's `getKey` (send the option to KM, read the wrapped key back) is part of `Run`.
  - `Run` is the whole session in the order the handshake forces.
  - The pipes are modelled as the bytes each writer produced.

`AES.encrypt` applies PKCS#5 padding to every input it is given. Each chunk of at most 16 bytes is therefore padded on its own, and a full 16-byte chunk becomes 32 bytes. So each ciphertext block on the wire is 16 or 32 bytes (`Protocol.ModeBlocksShape`). The wrapped session key is 32 bytes (`Protocol.KeyReachesA`).

## Model

| member | source | states |
|---|---|---|
| Framing.ByteSource.Read | src/main/kotlin/Main.kt:118-121 | `read()` yields the byte under the cursor and advances, or -1 at the end of the stream without moving |
| Framing.ByteSink.Write | src/main/kotlin/Main.kt:110-112 | `write(bytes)` appends exactly those bytes to what the pipe carries |
| Framing.SendMessage | src/main/kotlin/Main.kt:109-113 | the pipe gains the 4-byte big-endian length and then the payload, nothing else |
| Framing.Frame | src/main/kotlin/Main.kt:110-112 | the bytes `sendMessage` writes, 4 + |msg| long; `Framing.FramingRoundTrip` and `Framing.DeframeAt` read them back |
| Framing.Header | src/main/kotlin/Main.kt:116 | the four header bytes; `Framing.HeaderReads` and `Framing.ReadsInside` say which bytes they are |
| Framing.DeclaredSize | src/main/kotlin/Main.kt:116 | the length read from the header; `Framing.ReadSize` computes it and `IntCodec.GetPutInt` shows it is the length `sendMessage` wrote |
| Framing.Deframe | src/main/kotlin/Main.kt:115-126 | what `receiveMessage` returns and where the cursor ends, within the stream; `Framing.ReceiveMessage` is proved equal to it and `Framing.DeframeReads` gives it in closed form |
| Framing.Loop | src/main/kotlin/Main.kt:117-125 | the byte loop, its cursor staying within the stream; `Framing.LoopResult` gives its outcome |
| Framing.ReadSize | src/main/kotlin/Main.kt:116 | the four header reads give the length `getInt` reads from the header bytes (0xFF for each read past the end), and the cursor advances by at most four |
| Framing.ReceiveMessage | src/main/kotlin/Main.kt:115-126 | the returned array and the new cursor are exactly those `Deframe` specifies, for every stream and starting cursor |
| Framing.HeaderReads | src/main/kotlin/Main.kt:116 | the header is the four successive reads, each turned into a byte, with -1 becoming 0xFF |
| Framing.ReadsInside | src/main/kotlin/Main.kt:116 | reads that stay inside the stream see its bytes unchanged |
| Framing.LoopResult | src/main/kotlin/Main.kt:117-125 | the read loop either adds the next max(limit - |buffer|, 0) + 1 bytes to its buffer and stops right after them, or, when the stream ends first, returns empty with the stream used up |
| Framing.Wanted | src/main/kotlin/Main.kt:119-124 | the number of payload bytes the loop collects, at least one; `Framing.WantedByDeclared` gives it for every declared length |
| Framing.WantedByDeclared | src/main/kotlin/Main.kt:119-124 | the loop asks for the declared length when it is positive, for one byte from -2^31+1 to 0, and for 2^31 bytes when the declared length is -2^31 |
| Framing.DeframeReads | src/main/kotlin/Main.kt:115-126 | `receiveMessage` returns the max(size-1, 0)+1 bytes after the header (32-bit `size - 1`) when they are all there, and otherwise an empty array with the stream used up |
| Framing.DeframeAt | src/main/kotlin/Main.kt:109-126 | a frame of 1 to 2^31-1 bytes read from where it starts gives its payload and leaves the cursor right after it |
| Framing.FramingRoundTrip | src/main/kotlin/Main.kt:109-126 | `receiveMessage` after `sendMessage(msg)` returns msg and leaves what follows unread, whatever precedes and follows the frame |
| Framing.DeframeSlice | src/main/kotlin/Main.kt:117-125 | a non-empty result is the stretch of the stream just before the new cursor, of the length the header asks for |
| Framing.EarlyEndOfStream | src/main/kotlin/Main.kt:118-123 | for a declared length of at least 1, the result is empty exactly when fewer payload bytes than declared remain; a header cut short always gives an empty result; an empty result leaves the stream used up |
| Framing.EmptyFrameTakesNextByte | src/main/kotlin/Main.kt:119-125 | a frame declaring length 0 reads back as the single byte after it, or as empty at the end of the stream |
| IntCodec.ToInt | src/main/kotlin/Main.kt:132 | `toInt()` keeps the low 32 bits: the result is in 32-bit range and congruent to the input modulo 2^32, so values already in range are unchanged |
| IntCodec.IntToByte | src/main/kotlin/Main.kt:154 | `toByte()` keeps the value modulo 256 |
| IntCodec.ByteToInt | src/main/kotlin/Main.kt:229 | `Byte.toInt()` reads the byte as signed (-128..127), and `toByte()` of that value gives the byte back |
| IntCodec.ToByteArray | src/main/kotlin/Main.kt:205 | `toByteArray()` is minimal two's complement, and one byte long exactly for -128..127 |
| IntCodec.Value | src/main/kotlin/Main.kt:132 | the value of a k-byte two's-complement string lies in the signed k-byte range |
| IntCodec.FromByteArray | src/main/kotlin/Main.kt:241 | `BigInteger(bytes)` gives a value exactly when the array is non-empty |
| IntCodec.ValueOfToByteArray | src/main/kotlin/Main.kt:205 | decoding the minimal encoding of any integer gives it back |
| IntCodec.IntRoundTrip | src/main/kotlin/Main.kt:221 | `BigInteger(n.toBigInteger().toByteArray()).toInt() == n` for every `Int`, as B decodes the count at line 241 (and KM the option at line 132); the encoding takes 1 to 4 bytes |
| IntCodec.ToByteArrayLength | src/main/kotlin/Main.kt:205 | an integer in the signed k-byte range is encoded in at most k bytes |
| IntCodec.PutInt | src/main/kotlin/Main.kt:110-111 | `putInt` gives four bytes; `IntCodec.GetPutInt` reads them back |
| IntCodec.GetInt | src/main/kotlin/Main.kt:116 | `getInt` gives a 32-bit value; `IntCodec.GetPutInt` makes it the inverse of `putInt` |
| IntCodec.GetPutInt | src/main/kotlin/Main.kt:110-116 | `getInt` reads back what `putInt` wrote for every `Int` |
| IntCodec.ByteRoundTrip | src/main/kotlin/Main.kt:229 | the option byte survives `toByte()` then `toInt()` exactly when the option lies in -128..127 |
| Aes.Pad | src/main/kotlin/Main.kt:31 | PKCS#5 padding extends the input to the next whole number of blocks, strictly longer, and keeps it as a prefix |
| Aes.Unpad | src/main/kotlin/Main.kt:31 | unpadding, when it succeeds, yields a prefix of its input |
| Aes.EncryptBlocks | src/main/kotlin/Main.kt:31 | the ECB transform keeps the length |
| Aes.DecryptBlocks | src/main/kotlin/Main.kt:31 | the ECB inverse transform keeps the length |
| Aes.Encrypt | src/main/kotlin/Main.kt:33-37 | `AES.encrypt` yields 16*(n/16+1) bytes for n input bytes: one more block than the input's whole blocks |
| Aes.DecryptEncryptBlocks | src/main/kotlin/Main.kt:31 | block by block, decryption undoes encryption |
| Aes.UnpadPad | src/main/kotlin/Main.kt:31 | the padding is always removed again |
| Aes.Decrypt | src/main/kotlin/Main.kt:39-43 | `AES.decrypt`, failing on a partial block or bad padding; `Aes.AesRoundTrip` makes it the inverse of `Aes.Encrypt` |
| Aes.AesRoundTrip | src/main/kotlin/Main.kt:33-43 | `AES.decrypt(AES.encrypt(b, k), k)` gives b back for inputs of every length |
| Bytes.Chunks | src/main/kotlin/Main.kt:55 | `chunked(16)`; `Bytes.ChunksShape` gives its number, contents and sizes of chunks |
| Bytes.Flatten | src/main/kotlin/Main.kt:63 | `flatMap { block -> block.asList() }` (also at line 100); the last ensures of `Bytes.ChunksShape` makes it undo `chunked(16)` |
| Bytes.XorByte | src/main/kotlin/Main.kt:81 | `Byte.xor` (also at line 95); `Bytes.BitXorTwice` and `Bytes.XorTwice` state that xoring twice with the same byte gives it back |
| Bytes.Xor | src/main/kotlin/Main.kt:79-82 | the `zip` xor; `Bytes.XorTwice` and `Bytes.XorUsesPrefix` state how it truncates and undoes itself |
| Bytes.ChunksShape | src/main/kotlin/Main.kt:55-56 | `chunked(16)` gives ceil(n/16) chunks of 1 to 16 bytes, chunk i is msg[16i .. min(16i+16, n)], and their concatenation is the message |
| Bytes.XorTwice | src/main/kotlin/Main.kt:79-81 | xoring twice with the same chaining value restores a chunk no longer than it |
| Bytes.XorUsesPrefix | src/main/kotlin/Main.kt:79-81 | the `zip` xor of a chunk uses only as many bytes of the chaining value as the chunk has |
| Ecb.EcbEncrypt | src/main/kotlin/Main.kt:52-58 | `ECB.encrypt`; `Ecb.EcbStructure` and `Ecb.EcbEqualChunksEqualBlocks` state its blocks |
| Ecb.EcbDecrypt | src/main/kotlin/Main.kt:60-65 | `ECB.decrypt`; `Ecb.EcbRoundTrip` makes it the inverse of `Ecb.EcbEncrypt` |
| Ecb.DecryptEach | src/main/kotlin/Main.kt:61-62 | the decrypt `map` succeeds exactly when every block decrypts, and then part i is the decryption of block i |
| Ecb.EcbStructure | src/main/kotlin/Main.kt:52-58 | ECB gives ceil(n/16) blocks, block i being the AES encryption of chunk i alone |
| Ecb.EcbEqualChunksEqualBlocks | src/main/kotlin/Main.kt:52-58 | equal chunks, at any positions and in any messages, give equal ciphertext blocks under the same key |
| Ecb.DecryptEachEncrypted | src/main/kotlin/Main.kt:57-62 | decrypting the AES encryptions of some chunks gives those chunks back |
| Ecb.EcbRoundTrip | src/main/kotlin/Main.kt:51-65 | `ECB(k).decrypt(ECB(k).encrypt(msg)) == msg` |
| Cbc.EncryptChain | src/main/kotlin/Main.kt:78-86 | one block per chunk, and the chaining value left behind is the last block (the seed when there is none) |
| Cbc.DecryptChain | src/main/kotlin/Main.kt:91-99 | the decrypt `map` succeeds exactly when every block decrypts, yields one part per block, and leaves the last ciphertext block as chaining value |
| Cbc.CbcEncrypt | src/main/kotlin/Main.kt:73-87 | `CBC.encrypt` on a fresh instance; `Cbc.CbcCipher.Encrypt` is proved equal to it and `Cbc.CbcEncryptChaining` states its chaining |
| Cbc.CbcDecrypt | src/main/kotlin/Main.kt:89-102 | `CBC.decrypt` on a fresh instance; `Cbc.CbcCipher.Decrypt` is proved equal to it and `Cbc.CbcRoundTrip` makes it the inverse of `Cbc.CbcEncrypt` |
| Cbc.CbcCipher.UpdateIv | src/main/kotlin/Main.kt:69-71 | `updateIV` replaces the chaining value |
| Cbc.CbcCipher.Encrypt | src/main/kotlin/Main.kt:73-87 | the returned blocks and the new `iv` field are those of the chaining function from the old `iv` |
| Cbc.CbcCipher.Decrypt | src/main/kotlin/Main.kt:89-102 | the returned message and the new `iv` field are those of the decrypt chaining function from the old `iv` |
| Cbc.EncryptChainAt | src/main/kotlin/Main.kt:78-86 | block i encrypts chunk i xored with the seed (i = 0) or with block i-1 |
| Cbc.EncryptChainPrefixAt | src/main/kotlin/Main.kt:79-83 | chunk i > 0 is xored with the first |chunk i| bytes of block i-1, which is at least that long |
| Cbc.CbcEncryptChaining | src/main/kotlin/Main.kt:73-87 | CBC chaining on a fresh instance: block 0 from the seed, block i from block i-1, and the `iv` field ends as the last block |
| Cbc.DecryptChainAt | src/main/kotlin/Main.kt:91-99 | part i decrypts block i xored with the seed (i = 0) or with ciphertext block i-1 |
| Cbc.ChainRoundTrip | src/main/kotlin/Main.kt:73-102 | decrypting the chain gives the chunks back when the seed covers the first chunk, and both sides end on the same chaining value |
| Cbc.CbcRoundTrip | src/main/kotlin/Main.kt:73-102 | a fresh instance decrypts what another fresh instance with the same seed encrypted, exactly when the seed covers the first chunk; both `iv` fields then agree |
| Cbc.EncryptThenDecrypt | src/main/kotlin/Main.kt:216-249 | A's and B's own `CBC(key, IV)` instances: B recovers A's message, and both `iv` fields end as the last ciphertext block |
| Protocol.SelectMode | src/main/kotlin/Main.kt:214-217 | the `when (option)` on both sides; `Protocol.ModesAgree` states when A and B agree |
| Protocol.ModeEncrypt | src/main/kotlin/Main.kt:219 | `cipher.encrypt` in the chosen mode; `Protocol.ModeBlocksShape` states its blocks |
| Protocol.ModeDecrypt | src/main/kotlin/Main.kt:249 | `cipher.decrypt` in the chosen mode; `Protocol.ModeRoundTrip` makes it the inverse of `Protocol.ModeEncrypt` |
| Protocol.EncryptedChunkLength | src/main/kotlin/Main.kt:57 | one chunk of at most 16 bytes is encrypted into 16 or 32 bytes |
| Protocol.ModeBlocksShape | src/main/kotlin/Main.kt:219 | both modes give ceil(n/16) blocks of 16 to 32 bytes each |
| Protocol.ModeRoundTrip | src/main/kotlin/Main.kt:214-219 | both modes decrypt what they encrypted, under the same key and 16-byte IV |
| Protocol.SessionKey | src/main/kotlin/Main.kt:134-137 | KM's key choice; `Protocol.KeyManagerAnswer` states it |
| Protocol.Wrapped | src/main/kotlin/Main.kt:138 | the session key encrypted under K3; `Protocol.KeyReachesA` gives its length and unwrapping |
| Protocol.KeyManager | src/main/kotlin/Main.kt:129-143 | `KeyManagerNode.run`; `Protocol.KeyManagerAnswer` states its answer |
| Protocol.KeyManagerAnswer | src/main/kotlin/Main.kt:129-143 | KM answers option n with K1 wrapped under K3 when n is 1 and with K2 wrapped under K3 otherwise |
| Protocol.SenderAfterAck | src/main/kotlin/Main.kt:161-162 | what A sends after the acknowledgement; `Protocol.AckGating` states the gating |
| Protocol.FrameAll | src/main/kotlin/Main.kt:222 | one frame per block, in order; `Protocol.SendBlocks` writes them and `Protocol.ReceiveFramesAt` reads them back |
| Protocol.BlockFrames | src/main/kotlin/Main.kt:221-222 | the count frame, then the block frames; `Protocol.SendBlocks` writes them and `Protocol.ReceiveBlocksAt` reads them back |
| Protocol.DataFrames | src/main/kotlin/Main.kt:213-223 | the bytes `transmitData` writes; `Protocol.TransmitData` writes them and `Protocol.ReceiveDataRoundTrip` reads them back |
| Protocol.AckGating | src/main/kotlin/Main.kt:161-162 | A writes data after the acknowledgement if and only if it reads "OK" |
| Protocol.EncryptPayload | src/main/kotlin/Main.kt:213-219 | the blocks are those of ECB for option 1 and of a fresh CBC instance seeded with the IV otherwise |
| Protocol.SendBlocks | src/main/kotlin/Main.kt:221-222 | the pipe gains the frame of the block count and then one frame per block, in order |
| Protocol.TransmitData | src/main/kotlin/Main.kt:213-223 | the pipe gains the count frame and the block frames of the payload encrypted in the chosen mode |
| Protocol.ReceiveKey | src/main/kotlin/Main.kt:229-233 | B's cursor after the two frames stays within the stream |
| Protocol.ReceiveFrames | src/main/kotlin/Main.kt:243-247 | B reads exactly count frames and its cursor stays in the stream |
| Protocol.ReceiveFramesAt | src/main/kotlin/Main.kt:243-247 | B reads back exactly the messages A framed, in order, and stops right after the last |
| Protocol.ReceiveBlocks | src/main/kotlin/Main.kt:241-247 | B reading the count and the blocks; `Protocol.ReceiveBlocksAt` states what it receives |
| Protocol.ReceiveData | src/main/kotlin/Main.kt:236-249 | B's second half; `Protocol.ReceiveDataRoundTrip` states that it recovers the payload |
| Protocol.ReceiveBlocksAt | src/main/kotlin/Main.kt:241-247 | B decodes A's block count and receives exactly A's blocks, whatever precedes them |
| Protocol.ReceiveDataRoundTrip | src/main/kotlin/Main.kt:236-249 | B's second half recovers the payload from A's data frames when both sides chose the same mode |
| Protocol.ReceiveKeyAt | src/main/kotlin/Main.kt:229-233 | B decodes the signed option byte and unwraps the key A relayed |
| Protocol.ModesAgree | src/main/kotlin/Main.kt:214-239 | A's and B's `when (option)` agree exactly when the option is 1 or is not 1 modulo 256; they agree on 1 and 2 |
| Protocol.KeyReachesA | src/main/kotlin/Main.kt:134-157 | the wrapped key is 32 bytes, A's `receiveMessageKM` reads it whole, and A unwraps it to K1 (option 1) or K2 |
| Protocol.KeyReachesB | src/main/kotlin/Main.kt:154-233 | from A's option frame and the relayed wrapped key, B obtains the signed option byte and the same session key as A |
| Protocol.AckReachesA | src/main/kotlin/Main.kt:161 | A reads B's acknowledgement back as "OK" |
| Protocol.Run | src/main/kotlin/Main.kt:129-255 | one session of KM, A and B, including A's `getKey` (lines 204-211); `Protocol.SessionDeliversPayload` states what it delivers |
| Protocol.SessionDeliversPayload | src/main/kotlin/Main.kt:129-279 | end to end, B recovers exactly A's payload; the pipe to B carries the option byte, the wrapped key, the count and the blocks in that order; KM sends only the wrapped key; B sends only "OK" |

## Left out

- The threads, the pipes' blocking and `join`: the session is one sequential transcript in the order the handshake forces, and each pipe is the sequence of bytes its writer wrote.
- A reader blocking forever: a role that stops early (an exception, a failed decryption, an empty frame for `first()`) is modelled as no result (`received == None`). The model does not capture that the peer then waits forever.
- The AES block transform: it belongs to the JVM's cryptographic provider and is a parameter. Lemmas that need it to be correct require `Invertible`.
- `javax.crypto`'s rejection of keys that are not 16, 24 or 32 bytes: all keys in a session are 16 bytes.
- `Aes.Unpad` decrypts an empty array to an empty array. This is a modelling choice, taken to follow the SunJCE provider's unpadding, which strips nothing from zero bytes. No session reaches it: every ciphertext AES produces is at least one block long.
- `KM.K1` and `KM.K2` are getters that draw a fresh random key on every access. KM reads one of them once per session, so `KeyMaterial` holds the one value each access gives.
- Two CBC properties are not stated, because neither holds for every input, whatever the block transform. The first is that reordering ciphertext blocks changes the decryption: swapping two equal blocks changes nothing. The second is that equal chunks encrypt to different blocks: two equal chunks give equal blocks whenever the chaining values xored into them agree (`Cbc.EncryptChainPrefixAt`).
- `SecureRandom` key generation, the `Scanner` prompt, reading `Lorem.txt`, SHA-256 logging, `println` and closing the streams: I/O and randomness. Keys, the option and the payload are parameters.
- A session with fixed keys and a fixed message is not stated on its own. Its ciphertext blocks depend on the real AES transform, which is a parameter here. `Protocol.SessionDeliversPayload` covers every key and every payload.
- Protocol.SessionDeliversPayload: requires that A and B pick the same mode. For options congruent to 1 modulo 256 other than 1 they do not (`Protocol.ModesAgree`), and the theorem says nothing about such runs.
