/** The three roles of Main.kt — the key manager KM, the sender A and the receiver B — run in
    their lock-step order as one sequential transcript. Each pipe appears as the bytes its writer
    put into it; each reader walks those bytes with `receiveMessage` (Framing.Deframe). */
module Protocol {
  import opened Wrappers
  import opened Bytes
  import opened IntCodec
  import opened Framing
  import opened Aes
  import opened Ecb
  import opened Cbc

  /** The two `EncryptionMode`s. */
  datatype Mode = ECB | CBC

  /** `when (option) { 1 -> ECB(key); else -> CBC(key, IV) }`, on both A and B. */
  function SelectMode(option: int): Mode
  {
    if option == 1 then ECB else CBC
  }

  /** `KM.K1` and `KM.K2` (the candidate session keys), `KM.K3` (the key shared by KM, A and B
      that wraps the session key) and `KM.IV`, all made of 16 random bytes. */
  datatype KeyMaterial = KeyMaterial(k1: Bytes, k2: Bytes, k3: Bytes, iv: Bytes)

  predicate ValidKeys(keys: KeyMaterial)
  {
    |keys.k1| == BlockSize && |keys.k2| == BlockSize && |keys.k3| == BlockSize && |keys.iv| == BlockSize
  }

  /** `cipher.encrypt(msg)` for the chosen mode; a CBC cipher is a fresh instance seeded with IV. */
  function ModeEncrypt(c: BlockCipher, mode: Mode, key: Bytes, iv: Bytes, msg: Bytes): seq<Bytes>
  {
    match mode
    case ECB => EcbEncrypt(c, key, msg)
    case CBC => CbcEncrypt(c, key, iv, msg).0
  }

  /** `cipher.decrypt(blocks)` for the chosen mode, on a fresh instance. */
  function ModeDecrypt(c: BlockCipher, mode: Mode, key: Bytes, iv: Bytes, blocks: seq<Bytes>): Option<Bytes>
  {
    match mode
    case ECB => EcbDecrypt(c, key, blocks)
    case CBC => CbcDecrypt(c, key, iv, blocks).0
  }

  /** AES output for one chunk (at most 16 bytes) is one or two blocks long. */
  lemma {:induction false} EncryptedChunkLength(c: BlockCipher, x: Bytes, key: Bytes)
    requires Invertible(c) && |x| <= BlockSize
    ensures BlockSize <= |Aes.Encrypt(c, x, key)| <= 2 * BlockSize
  {
  }

  /** Either mode turns a message into ceil(|msg|/16) blocks of 16 or 32 bytes each: every
      chunk, xored or not, is at most 16 bytes and gains up to one block of padding in AES. */
  lemma {:induction false} ModeBlocksShape(c: BlockCipher, mode: Mode, key: Bytes, iv: Bytes, msg: Bytes)
    requires Invertible(c)
    ensures |ModeEncrypt(c, mode, key, iv, msg)| == (|msg| + BlockSize - 1) / BlockSize
    ensures forall i :: 0 <= i < |ModeEncrypt(c, mode, key, iv, msg)| ==>
      BlockSize <= |ModeEncrypt(c, mode, key, iv, msg)[i]| <= 2 * BlockSize
  {
    var chunks := Chunks(msg);
    ChunksShape(msg);
    var blocks := ModeEncrypt(c, mode, key, iv, msg);
    forall i | 0 <= i < |blocks|
      ensures BlockSize <= |blocks[i]| <= 2 * BlockSize
    {
      match mode
      case ECB =>
        EncryptedChunkLength(c, chunks[i], key);
      case CBC =>
        var prev := if i == 0 then iv else blocks[i - 1];
        EncryptChainAt(c, key, iv, chunks, i);
        EncryptedChunkLength(c, Xor(chunks[i], prev), key);
    }
  }

  /** Both modes decrypt what they encrypted, given the same key and the same 16-byte IV. */
  lemma {:induction false} ModeRoundTrip(c: BlockCipher, mode: Mode, key: Bytes, iv: Bytes, msg: Bytes)
    requires Invertible(c)
    requires |iv| == BlockSize
    ensures ModeDecrypt(c, mode, key, iv, ModeEncrypt(c, mode, key, iv, msg)) == Some(msg)
  {
    match mode
    case ECB => EcbRoundTrip(c, key, msg);
    case CBC => CbcRoundTrip(c, key, iv, msg);
  }

  // ---------------------------------------------------------------- KM

  /** KM's `when (option) { 1 -> KM.K1; else -> KM.K2 }`. */
  function SessionKey(keys: KeyMaterial, option: int): Bytes
  {
    if option == 1 then keys.k1 else keys.k2
  }

  /** The key KM sends back: the session key encrypted under K3. */
  function Wrapped(c: BlockCipher, keys: KeyMaterial, option: int): Bytes
  {
    Aes.Encrypt(c, SessionKey(keys, option), keys.k3)
  }

  /** `KeyManagerNode.run`: read the option as a `BigInteger`, take K1 for option 1 and K2
      otherwise, and answer with that key encrypted under K3. An empty request makes the
      `BigInteger` constructor throw, and KM ends without answering. */
  function KeyManager(c: BlockCipher, keys: KeyMaterial, fromA: Bytes): Bytes
  {
    match FromByteArray(Deframe(fromA, 0).0)
    case None => []
    case Some(v) =>
      Frame(Wrapped(c, keys, ToInt(v)))
  }

  /** KM answers A's request for option n with K1 wrapped under K3 exactly when n is 1, and with
      K2 wrapped under K3 otherwise. */
  lemma {:induction false} KeyManagerAnswer(c: BlockCipher, keys: KeyMaterial, option: int)
    requires IsInt32(option)
    ensures KeyManager(c, keys, Frame(ToByteArray(option)))
            == Frame(Aes.Encrypt(c, if option == 1 then keys.k1 else keys.k2, keys.k3))
  {
    IntRoundTrip(option);
    FramingRoundTrip([], ToByteArray(option), []);
    assert [] + Frame(ToByteArray(option)) + [] == Frame(ToByteArray(option));
  }

  // ---------------------------------------------------------------- A

  /** `"OK".toByteArray(Charsets.UTF_8)`; A's test `toString(UTF_8) != "OK"` holds exactly when
      the bytes differ from these two, since no other byte string decodes to "OK". */
  const Ok: Bytes := [0x4F, 0x4B]

  /** Frames of the given messages, one after the other. */
  function FrameAll(msgs: seq<Bytes>): Bytes
    decreases |msgs|
  {
    if |msgs| == 0 then [] else Frame(msgs[0]) + FrameAll(msgs[1..])
  }

  /** `transmitData(option, msg, key)`: the block count as a `BigInteger`, then every block,
      in order, each in its own frame. */
  function DataFrames(c: BlockCipher, option: int, key: Bytes, iv: Bytes, payload: Bytes): Bytes
  {
    BlockFrames(ModeEncrypt(c, SelectMode(option), key, iv, payload))
  }

  /** The count frame followed by one frame per block. */
  function BlockFrames(blocks: seq<Bytes>): Bytes
  {
    Frame(ToByteArray(|blocks|)) + FrameAll(blocks)
  }

  /** What A writes to B once it has read the acknowledgement: nothing unless it is "OK". */
  function SenderAfterAck(c: BlockCipher, option: int, key: Bytes, iv: Bytes, ack: Bytes, payload: Bytes): Bytes
  {
    if ack != Ok then [] else DataFrames(c, option, key, iv, payload)
  }

  /** Gating: A writes anything after the acknowledgement if and only if it reads "OK". */
  lemma {:induction false} AckGating(c: BlockCipher, option: int, key: Bytes, iv: Bytes, ack: Bytes, payload: Bytes)
    ensures SenderAfterAck(c, option, key, iv, ack, payload) == [] <==> ack != Ok
  {
  }

  lemma {:induction false} FrameAllSnoc(msgs: seq<Bytes>, m: Bytes)
    ensures FrameAll(msgs + [m]) == FrameAll(msgs) + Frame(m)
    decreases |msgs|
  {
    if |msgs| > 0 {
      assert (msgs + [m])[1..] == msgs[1..] + [m];
      FrameAllSnoc(msgs[1..], m);
    } else {
      assert msgs + [m] == [m];
    }
  }

  /** The `when (option)` in `transmitData` and `cipher.encrypt(msg)`: ECB for option 1, a fresh
      CBC instance seeded with the IV otherwise. */
  method EncryptPayload(c: BlockCipher, option: int, key: Bytes, iv: Bytes, payload: Bytes)
    returns (blocks: seq<Bytes>)
    ensures blocks == ModeEncrypt(c, SelectMode(option), key, iv, payload)
  {
    if option == 1 {
      blocks := EcbEncrypt(c, key, payload);
    } else {
      var cipher := new CbcCipher(c, key, iv);
      blocks := cipher.Encrypt(payload);
    }
  }

  /** One more frame on a stream that holds `head` and the frames of `done`. */
  lemma {:induction false} SendStep(head: Bytes, done: seq<Bytes>, m: Bytes, sent: Bytes, now: Bytes)
    requires sent == head + FrameAll(done) && now == sent + Frame(m)
    ensures now == head + FrameAll(done + [m])
  {
    FrameAllSnoc(done, m);
  }

  lemma {:induction false} PrefixSnoc(blocks: seq<Bytes>, i: nat)
    requires i < |blocks|
    ensures blocks[..i + 1] == blocks[..i] + [blocks[i]]
  {
  }

  /** The sending half of `transmitData`: the block count, then every block in its own frame,
      in order, in a loop. */
  method SendBlocks(output: ByteSink, blocks: seq<Bytes>)
    modifies output
    ensures output.written == old(output.written) + BlockFrames(blocks)
  {
    SendMessage(output, ToByteArray(|blocks|));
    ghost var head := old(output.written) + Frame(ToByteArray(|blocks|));
    for i := 0 to |blocks|
      invariant output.written == head + FrameAll(blocks[..i])
    {
      ghost var sent := output.written;
      SendMessage(output, blocks[i]);
      SendStep(head, blocks[..i], blocks[i], sent, output.written);
      PrefixSnoc(blocks, i);
    }
    assert blocks[..|blocks|] == blocks;
  }

  /** `transmitData` itself: build the cipher, encrypt, send the count and the blocks. */
  method TransmitData(output: ByteSink, c: BlockCipher, option: int, key: Bytes, iv: Bytes, payload: Bytes)
    modifies output
    ensures output.written == old(output.written) + DataFrames(c, option, key, iv, payload)
  {
    var blocks := EncryptPayload(c, option, key, iv, payload);
    SendBlocks(output, blocks);
  }

  // ---------------------------------------------------------------- B

  /** What B holds after the first half of its run: the option it decoded, the key it
      unwrapped, and its read cursor on the pipe from A. */
  datatype ReceiverState = ReceiverState(option: int, key: Bytes, cursor: nat)

  /** B's first half (`B.run` up to sending "OK"): the option as the signed first byte of the
      first frame (`first()` throws on an empty frame), then the wrapped key, unwrapped under K3
      (AES may fail). */
  function ReceiveKey(c: BlockCipher, k3: Bytes, fromA: Bytes): (r: Option<ReceiverState>)
    ensures r.Some? ==> r.value.cursor <= |fromA|
  {
    var (optionMsg, p1) := Deframe(fromA, 0);
    if |optionMsg| == 0 then None
    else
      var (wrapped, p2) := Deframe(fromA, p1);
      match Aes.Decrypt(c, wrapped, k3)
      case None => None
      case Some(key) => Some(ReceiverState(ByteToInt(optionMsg[0]), key, p2))
  }

  /** `(size downTo 1).toList().map { receiveMessage() }`: max(size, 0) frames in a row. */
  function ReceiveFrames(data: Bytes, pos: nat, count: nat): (r: (seq<Bytes>, nat))
    requires pos <= |data|
    ensures |r.0| == count && pos <= r.1 <= |data|
    decreases count
  {
    if count == 0 then ([], pos)
    else
      var (first, next) := Deframe(data, pos);
      var rest := ReceiveFrames(data, next, count - 1);
      ([first] + rest.0, rest.1)
  }

  /** B receiving the blocks: the count as a `BigInteger` (whose constructor throws on an empty
      frame) read with `toInt()`, then max(count, 0) frames. */
  function ReceiveBlocks(fromA: Bytes, pos: nat): Option<seq<Bytes>>
    requires pos <= |fromA|
  {
    var (countMsg, p) := Deframe(fromA, pos);
    match FromByteArray(countMsg)
    case None => None
    case Some(v) =>
      var size := ToInt(v);
      Some(ReceiveFrames(fromA, p, if size < 0 then 0 else size).0)
  }

  /** B's second half: receive the blocks and decrypt them in the mode B chose from its option. */
  function ReceiveData(c: BlockCipher, iv: Bytes, state: ReceiverState, fromA: Bytes): Option<Bytes>
    requires state.cursor <= |fromA|
  {
    match ReceiveBlocks(fromA, state.cursor)
    case None => None
    case Some(blocks) => ModeDecrypt(c, SelectMode(state.option), state.key, iv, blocks)
  }

  /** Every message is non-empty and its length fits the four-byte header. */
  predicate AllFit(msgs: seq<Bytes>)
    decreases |msgs|
  {
    |msgs| == 0 || (1 <= |msgs[0]| < TwoTo31 && AllFit(msgs[1..]))
  }

  lemma {:induction false} AllFitEach(msgs: seq<Bytes>)
    requires forall i :: 0 <= i < |msgs| ==> 1 <= |msgs[i]| < TwoTo31
    ensures AllFit(msgs)
    decreases |msgs|
  {
    if |msgs| > 0 {
      AllFitEach(msgs[1..]);
    }
  }

  /** Frames one after the other from pos, each of which `receiveMessage` reads back whole. */
  predicate Chain(data: Bytes, pos: nat, msgs: seq<Bytes>)
    decreases |msgs|
  {
    pos <= |data| &&
    (|msgs| > 0 ==>
      Deframe(data, pos) == (msgs[0], pos + 4 + |msgs[0]|) && Chain(data, pos + 4 + |msgs[0]|, msgs[1..]))
  }

  /** The number of bytes the frames of msgs take. */
  function FramedSize(msgs: seq<Bytes>): nat
    decreases |msgs|
  {
    if |msgs| == 0 then 0 else 4 + |msgs[0]| + FramedSize(msgs[1..])
  }

  /** One step of B's frame loop: the first frame read, then the rest from where it ends.
      A proof helper: it unfolds ReceiveFrames once, so that its callers do not. */
  lemma {:induction false} ReceiveFramesStep(data: Bytes, pos: nat, count: nat, first: Bytes, next: nat, rest: seq<Bytes>,
                          restEnd: nat, total: nat, all: seq<Bytes>, end: nat)
    requires pos <= |data|
    requires Deframe(data, pos) == (first, next)
    requires ReceiveFrames(data, next, count).0 == rest && ReceiveFrames(data, next, count).1 == restEnd
    requires total == count + 1 && all == [first] + rest && end == restEnd
    ensures ReceiveFrames(data, pos, total).0 == all && ReceiveFrames(data, pos, total).1 == end
  {
  }

  /** Proof helper: one unfolding of FrameAll, with the length it gives. */
  lemma {:induction false} FrameAllCons(msgs: seq<Bytes>)
    requires |msgs| > 0
    ensures FrameAll(msgs) == Frame(msgs[0]) + FrameAll(msgs[1..])
    ensures |FrameAll(msgs)| == 4 + |msgs[0]| + |FrameAll(msgs[1..])|
  {
  }

  /** Proof helper: a non-empty list is its head followed by its tail. */
  lemma {:induction false} ConsTail(msgs: seq<Bytes>)
    requires |msgs| > 0
    ensures [msgs[0]] + msgs[1..] == msgs
  {
  }

  /** A loop of frame reads along a chain returns its messages and ends after the last. */
  lemma {:induction false} ChainReceived(data: Bytes, pos: nat, msgs: seq<Bytes>)
    requires Chain(data, pos, msgs)
    ensures ReceiveFrames(data, pos, |msgs|).0 == msgs
    ensures ReceiveFrames(data, pos, |msgs|).1 == pos + FramedSize(msgs)
    decreases |msgs|
  {
    if |msgs| > 0 {
      var next := pos + 4 + |msgs[0]|;
      ChainReceived(data, next, msgs[1..]);
      ConsTail(msgs);
      ReceiveFramesStep(data, pos, |msgs[1..]|, msgs[0], next, msgs[1..], next + FramedSize(msgs[1..]),
                        |msgs|, msgs, pos + FramedSize(msgs));
    }
  }

  /** The frames A wrote one after the other form a chain. */
  lemma {:induction false} ChainOfFrames(data: Bytes, pos: nat, msgs: seq<Bytes>)
    requires AllFit(msgs)
    requires pos + |FrameAll(msgs)| <= |data|
    requires data[pos .. pos + |FrameAll(msgs)|] == FrameAll(msgs)
    ensures Chain(data, pos, msgs) && FramedSize(msgs) == |FrameAll(msgs)|
    decreases |msgs|
  {
    if |msgs| > 0 {
      var next := pos + 4 + |msgs[0]|;
      FrameAllCons(msgs);
      SliceSplit(data, pos, Frame(msgs[0]), FrameAll(msgs[1..]), next, pos + |FrameAll(msgs)|);
      DeframeAt(data, pos, msgs[0]);
      ChainOfFrames(data, next, msgs[1..]);
    }
  }

  /** B reads exactly as many frames as A framed, in order, and stops right after the last,
      whatever surrounds those frames in the stream. */
  lemma {:induction false} ReceiveFramesAt(data: Bytes, pos: nat, msgs: seq<Bytes>)
    requires AllFit(msgs)
    requires pos + |FrameAll(msgs)| <= |data|
    requires data[pos .. pos + |FrameAll(msgs)|] == FrameAll(msgs)
    ensures ReceiveFrames(data, pos, |msgs|).0 == msgs
    ensures ReceiveFrames(data, pos, |msgs|).1 == pos + |FrameAll(msgs)|
  {
    ChainOfFrames(data, pos, msgs);
    ChainReceived(data, pos, msgs);
  }

  /** B receives exactly the block list A framed after the count, whatever surrounds it. */
  lemma {:induction false} ReceiveBlocksAt(data: Bytes, pos: nat, blocks: seq<Bytes>)
    requires |blocks| < TwoTo31
    requires forall i :: 0 <= i < |blocks| ==> 1 <= |blocks[i]| < TwoTo31
    requires pos + |BlockFrames(blocks)| <= |data|
    requires data[pos .. pos + |BlockFrames(blocks)|] == BlockFrames(blocks)
    ensures ReceiveBlocks(data, pos) == Some(blocks)
  {
    var n := |blocks|;
    var countMsg := ToByteArray(n);
    var countFrame := Frame(countMsg);
    var rest := FrameAll(blocks);
    var p := pos + |countFrame|;
    assert FromByteArray(countMsg) == Some(n) && ToInt(n) == n && 1 <= |countMsg| <= 4 by {
      IntRoundTrip(n);
    }
    assert Deframe(data, pos) == (countMsg, p) && data[p .. p + |rest|] == rest by {
      SliceSplit(data, pos, countFrame, rest, p, pos + |BlockFrames(blocks)|);
      DeframeAt(data, pos, countMsg);
    }
    assert ReceiveFrames(data, p, n).0 == blocks by {
      AllFitEach(blocks);
      ReceiveFramesAt(data, p, blocks);
    }
    ReceiveBlocksStep(data, pos, countMsg, p, n, blocks);
  }

  /** The count frame, then that many block frames. A proof helper: it unfolds ReceiveBlocks
      once, so that ReceiveBlocksAt does not. */
  lemma {:induction false} ReceiveBlocksStep(data: Bytes, pos: nat, countMsg: Bytes, p: nat, n: nat,
                                             blocks: seq<Bytes>)
    requires pos <= p <= |data|
    requires Deframe(data, pos) == (countMsg, p)
    requires FromByteArray(countMsg) == Some(n) && ToInt(n) == n
    requires ReceiveFrames(data, p, n).0 == blocks
    ensures ReceiveBlocks(data, pos) == Some(blocks)
  {
  }

  /** B's second half recovers the payload from A's data frames whatever came before them, when
      both sides use the same mode, key and IV. */
  lemma {:induction false} ReceiveDataRoundTrip(c: BlockCipher, option: int, key: Bytes, iv: Bytes, payload: Bytes,
                             before: Bytes, stateOption: int)
    requires Invertible(c) && |iv| == BlockSize && |payload| < TwoTo31
    requires SelectMode(stateOption) == SelectMode(option)
    ensures ReceiveData(c, iv, ReceiverState(stateOption, key, |before|),
                        before + DataFrames(c, option, key, iv, payload)) == Some(payload)
  {
    var mode := SelectMode(option);
    var blocks := ModeEncrypt(c, mode, key, iv, payload);
    ModeBlocksShape(c, mode, key, iv, payload);
    var data := before + BlockFrames(blocks);
    assert data[|before| .. |before| + |BlockFrames(blocks)|] == BlockFrames(blocks);
    ReceiveBlocksAt(data, |before|, blocks);
    ModeRoundTrip(c, mode, key, iv, payload);
  }

  /** B's first half reads the option byte and the wrapped key that A framed, and unwraps it. */
  lemma {:induction false} ReceiveKeyAt(c: BlockCipher, k3: Bytes, b: Byte, wrapped: Bytes, key: Bytes)
    requires 1 <= |wrapped| < TwoTo31
    requires Aes.Decrypt(c, wrapped, k3) == Some(key)
    ensures ReceiveKey(c, k3, Frame([b]) + Frame(wrapped))
            == Some(ReceiverState(ByteToInt(b), key, 5 + 4 + |wrapped|))
  {
    var data := Frame([b]) + Frame(wrapped);
    assert data[0 .. |data|] == data;
    SliceSplit(data, 0, Frame([b]), Frame(wrapped), 5, |data|);
    DeframeAt(data, 0, [b]);
    DeframeAt(data, 5, wrapped);
    ReceiveKeyStep(c, k3, data, [b], 5, wrapped, 5 + 4 + |wrapped|, key);
  }

  /** The option frame, then the wrapped-key frame, which AES unwraps. A proof helper: it
      unfolds ReceiveKey once, so that ReceiveKeyAt does not. */
  lemma {:induction false} ReceiveKeyStep(c: BlockCipher, k3: Bytes, data: Bytes, optionMsg: Bytes, p1: nat,
                                          wrapped: Bytes, p2: nat, key: Bytes)
    requires Deframe(data, 0) == (optionMsg, p1) && |optionMsg| > 0 && p1 <= |data|
    requires Deframe(data, p1) == (wrapped, p2)
    requires Aes.Decrypt(c, wrapped, k3) == Some(key)
    ensures ReceiveKey(c, k3, data) == Some(ReceiverState(ByteToInt(optionMsg[0]), key, p2))
  {
  }

  // ---------------------------------------------------------------- the session

  /** The bytes every pipe carried and what B recovered (None when a role stops early). */
  datatype Session = Session(toKm: Bytes, fromKm: Bytes, toB: Bytes, fromB: Bytes, received: Option<Bytes>)

  /** One run of `main`, in the order the lock-step handshake forces: A sends the option byte to
      B and the option to KM; KM answers with the wrapped key; A unwraps it and relays the same
      bytes to B; B unwraps it and answers "OK"; A sends the count and the blocks; B decrypts. */
  function Run(c: BlockCipher, keys: KeyMaterial, option: int, payload: Bytes): Session
  {
    var optionFrame := Frame([IntToByte(option)]);
    var toKm := Frame(ToByteArray(option));
    var fromKm := KeyManager(c, keys, toKm);
    var wrapped := Deframe(fromKm, 0).0;
    match Aes.Decrypt(c, wrapped, keys.k3)
    case None => Session(toKm, fromKm, optionFrame, [], None)
    case Some(keyAtA) =>
      var toB1 := optionFrame + Frame(wrapped);
      match ReceiveKey(c, keys.k3, toB1)
      case None => Session(toKm, fromKm, toB1, [], None)
      case Some(state) =>
        var fromB := Frame(Ok);
        var ack := Deframe(fromB, 0).0;
        var toB := toB1 + SenderAfterAck(c, option, keyAtA, keys.iv, ack, payload);
        Session(toKm, fromKm, toB, fromB, if ack != Ok then None else ReceiveData(c, keys.iv, state, toB))
  }

  /** The option decides the same mode on both sides exactly when it is 1 or is not congruent to
      1 modulo 256: A tests the `Int`, B the signed byte A truncated it to, so 257 makes A use
      CBC and B use ECB. The two values A's prompt offers, 1 and 2, agree. */
  lemma {:induction false} ModesAgree(option: int)
    ensures SelectMode(option) == SelectMode(ByteToInt(IntToByte(option)))
            <==> option == 1 || option % 256 != 1
    ensures SelectMode(1) == SelectMode(ByteToInt(IntToByte(1))) == ECB
    ensures SelectMode(2) == SelectMode(ByteToInt(IntToByte(2))) == CBC
  {
  }

  /** Key distribution at A: KM's answer is K1 (option 1) or K2 (otherwise) wrapped into two
      AES blocks under K3, A's `receiveMessageKM` reads exactly those blocks, and A unwraps them
      to that key. */
  lemma {:induction false} KeyReachesA(c: BlockCipher, keys: KeyMaterial, option: int)
    requires Invertible(c) && ValidKeys(keys)
    ensures |Wrapped(c, keys, option)| == 2 * BlockSize
    ensures Deframe(Frame(Wrapped(c, keys, option)), 0).0 == Wrapped(c, keys, option)
    ensures Aes.Decrypt(c, Wrapped(c, keys, option), keys.k3) == Some(SessionKey(keys, option))
  {
    var wrapped := Wrapped(c, keys, option);
    AesRoundTrip(c, SessionKey(keys, option), keys.k3);
    DeframeAt(Frame(wrapped), 0, wrapped);
  }

  /** Key distribution at B: reading A's option byte and the relayed wrapped key, B decodes the
      option as the signed byte and unwraps the same key A holds. */
  lemma {:induction false} KeyReachesB(c: BlockCipher, keys: KeyMaterial, option: int)
    requires Invertible(c) && ValidKeys(keys)
    ensures ReceiveKey(c, keys.k3, Frame([IntToByte(option)]) + Frame(Wrapped(c, keys, option)))
            == Some(ReceiverState(ByteToInt(IntToByte(option)), SessionKey(keys, option), 5 + 4 + 2 * BlockSize))
  {
    var wrapped := Wrapped(c, keys, option);
    KeyReachesA(c, keys, option);
    ReceiveKeyAt(c, keys.k3, IntToByte(option), wrapped, SessionKey(keys, option));
  }

  /** A reads B's acknowledgement back as "OK". */
  lemma {:induction false} AckReachesA()
    ensures Deframe(Frame(Ok), 0) == (Ok, 4 + |Ok|)
  {
    assert Frame(Ok)[0 .. 4 + |Ok|] == Frame(Ok);
    DeframeAt(Frame(Ok), 0, Ok);
  }

  /** End to end: with a correct AES, 16-byte keys and IV, an `Int` option on which A and B pick
      the same mode, and a payload that fits a byte array, B recovers exactly A's payload; the
      pipe from A to B carries exactly the option byte, the wrapped key, the block count and the
      blocks, in that order, and B's only message is "OK". */
  lemma {:induction false} SessionDeliversPayload(c: BlockCipher, keys: KeyMaterial, option: int, payload: Bytes)
    requires Invertible(c) && ValidKeys(keys) && IsInt32(option) && |payload| < TwoTo31
    requires SelectMode(option) == SelectMode(ByteToInt(IntToByte(option)))
    ensures Run(c, keys, option, payload).received == Some(payload)
    ensures Run(c, keys, option, payload).toB ==
      Frame([IntToByte(option)]) + Frame(Wrapped(c, keys, option))
        + DataFrames(c, option, SessionKey(keys, option), keys.iv, payload)
    ensures Run(c, keys, option, payload).fromKm == Frame(Wrapped(c, keys, option))
    ensures Run(c, keys, option, payload).fromB == Frame(Ok)
  {
    var key := SessionKey(keys, option);
    var wrapped := Wrapped(c, keys, option);
    KeyManagerAnswer(c, keys, option);
    KeyReachesA(c, keys, option);
    KeyReachesB(c, keys, option);
    AckReachesA();
    var toB1 := Frame([IntToByte(option)]) + Frame(wrapped);
    assert |toB1| == 5 + 4 + |wrapped|;
    ReceiveDataRoundTrip(c, option, key, keys.iv, payload, toB1, ByteToInt(IntToByte(option)));
  }
}
