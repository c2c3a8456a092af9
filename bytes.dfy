/** Byte sequences and the list operations Main.kt applies to them:
    `chunked(16)`, `flatMap`, and the `zip`-then-`xor` of the CBC mode. */
module Bytes {

  /** A JVM byte, taken as its unsigned value 0..255; its signed reading is in IntCodec. */
  type Byte = x: int | 0 <= x < 256
  type Bytes = seq<Byte>

  /** The chunk size of `chunked(16)` and the AES block size. */
  const BlockSize: nat := 16

  function Min(a: int, b: int): int { if a <= b then a else b }

  /** `msg.toList().chunked(16)`: consecutive chunks of 16 bytes, the last one shorter;
      no chunk at all for an empty message. */
  function Chunks(msg: Bytes): seq<Bytes>
    decreases |msg|
  {
    if |msg| == 0 then []
    else
      var n := Min(BlockSize, |msg|);
      [msg[..n]] + Chunks(msg[n..])
  }

  /** `flatMap { block -> block.asList() }`: the concatenation of the parts, in order. */
  function Flatten(parts: seq<Bytes>): Bytes
  {
    if |parts| == 0 then [] else parts[0] + Flatten(parts[1..])
  }

  function Pow2(k: nat): (r: nat)
    ensures r >= 1
  {
    if k == 0 then 1 else 2 * Pow2(k - 1)
  }

  /** Bitwise exclusive or of the k low-order bits of a and b. */
  function BitXor(a: nat, b: nat, k: nat): (r: nat)
    ensures r < Pow2(k)
  {
    if k == 0 then 0
    else (if a % 2 == b % 2 then 0 else 1) + 2 * BitXor(a / 2, b / 2, k - 1)
  }

  /** Kotlin's `Byte.xor`. */
  function XorByte(a: Byte, b: Byte): Byte
  {
    assert Pow2(8) == 256;
    BitXor(a, b, 8)
  }

  /** `a.toList().zip(b.toList()).map { p -> p.first.xor(p.second) }`:
      `zip` stops at the end of the shorter list. */
  function Xor(a: Bytes, b: Bytes): Bytes
  {
    seq(Min(|a|, |b|), i requires 0 <= i < Min(|a|, |b|) => XorByte(a[i], b[i]))
  }

  /** Xor-ing twice with the same k-bit operand restores a k-bit value. */
  lemma {:induction false} BitXorTwice(a: nat, b: nat, k: nat)
    requires a < Pow2(k)
    ensures BitXor(BitXor(a, b, k), b, k) == a
    decreases k
  {
    if k > 0 {
      var c := BitXor(a, b, k);
      var x := BitXor(a / 2, b / 2, k - 1);
      var bit := if a % 2 == b % 2 then 0 else 1;
      assert c == bit + 2 * x;
      assert c % 2 == bit && c / 2 == x;
      BitXorTwice(a / 2, b / 2, k - 1);
      assert a == a % 2 + 2 * (a / 2);
    }
  }

  /** Chunk i is msg[16i .. min(16i+16, |msg|)], there are ceil(|msg|/16) of them,
      each non-empty and at most 16 bytes, and together they are msg again. */
  lemma {:induction false} ChunksShape(msg: Bytes)
    ensures |Chunks(msg)| == (|msg| + BlockSize - 1) / BlockSize
    ensures forall i :: 0 <= i < |Chunks(msg)| ==>
      Chunks(msg)[i] == msg[BlockSize * i .. Min(BlockSize * i + BlockSize, |msg|)]
    ensures forall i :: 0 <= i < |Chunks(msg)| ==> 1 <= |Chunks(msg)[i]| <= BlockSize
    ensures Flatten(Chunks(msg)) == msg
    decreases |msg|
  {
    if |msg| > 0 {
      var n := Min(BlockSize, |msg|);
      var tail := msg[n..];
      ChunksShape(tail);
      assert Chunks(msg) == [msg[..n]] + Chunks(tail);
      forall i | 0 <= i < |Chunks(msg)|
        ensures Chunks(msg)[i] == msg[BlockSize * i .. Min(BlockSize * i + BlockSize, |msg|)]
      {
        if i > 0 {
          assert Chunks(msg)[i] == Chunks(tail)[i - 1];
          assert n == BlockSize;
        }
      }
      assert msg == msg[..n] + tail;
    }
  }

  /** Xor-ing twice with the same operand gives back every byte that the first `zip` kept. */
  lemma {:induction false} XorTwice(a: Bytes, b: Bytes)
    ensures Xor(Xor(a, b), b) == a[..Min(|a|, |b|)]
  {
    assert Pow2(8) == 256;
    forall i | 0 <= i < Min(|a|, |b|)
      ensures XorByte(XorByte(a[i], b[i]), b[i]) == a[i]
    {
      BitXorTwice(a[i], b[i], 8);
    }
  }

  /** Only the first |a| bytes of b take part in Xor(a, b). */
  lemma {:induction false} XorUsesPrefix(a: Bytes, b: Bytes)
    requires |a| <= |b|
    ensures Xor(a, b) == Xor(a, b[..|a|])
  {
  }

  /** A slice that holds a + b splits into a slice holding a and one holding b. */
  lemma {:induction false} SliceSplit(data: Bytes, lo: nat, a: Bytes, b: Bytes, mid: nat, hi: nat)
    requires mid == lo + |a| && hi == mid + |b|
    requires hi <= |data| && data[lo .. hi] == a + b
    ensures data[lo .. mid] == a
    ensures data[mid .. mid + |b|] == b
  {
    assert data[lo .. mid] == (a + b)[..|a|];
    assert data[mid .. mid + |b|] == (a + b)[|a|..];
  }
}
