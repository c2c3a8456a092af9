/** The integer wire encodings of Main.kt: `BigInteger.toByteArray()` and `BigInteger(bytes)`
    (minimal big-endian two's complement), `BigInteger.toInt()`, `ByteBuffer.putInt`/`getInt`
    (four bytes, big-endian), and `Int.toByte()`/`Byte.toInt()`. */
module IntCodec {
  import opened Wrappers
  import opened Bytes

  const TwoTo31: int := 0x8000_0000
  const TwoTo32: int := 0x1_0000_0000

  /** The range of a Kotlin `Int`. */
  predicate IsInt32(n: int) { -TwoTo31 <= n < TwoTo31 }

  function Pow256(k: nat): (r: int)
    ensures r >= 1
  {
    if k == 0 then 1 else 256 * Pow256(k - 1)
  }

  /** `BigInteger.toInt()` and 32-bit `Int` arithmetic: keep the low 32 bits, read them signed. */
  function ToInt(v: int): (r: int)
    ensures IsInt32(r)
    ensures (r - v) % TwoTo32 == 0
    ensures IsInt32(v) ==> r == v
  {
    (v + 0x8000_0000) % 0x1_0000_0000 - 0x8000_0000
  }

  /** `Int.toByte()`: the low eight bits. */
  function IntToByte(n: int): (b: Byte)
    ensures (b - n) % 256 == 0
  {
    n % 256
  }

  /** `Byte.toInt()`: the byte read as a signed eight-bit value. */
  function ByteToInt(b: Byte): (r: int)
    ensures -128 <= r < 128
    ensures IntToByte(r) == b
  {
    if b < 128 then b else b - 256
  }

  /** A two's-complement byte string whose leading byte is not redundant: dropping it
      would change neither the sign nor the value. */
  predicate Minimal(bs: Bytes)
  {
    |bs| >= 1 &&
    (|bs| >= 2 ==> !(bs[0] == 0 && bs[1] < 128) && !(bs[0] == 0xFF && bs[1] >= 128))
  }

  function Abs(n: int): nat { if n < 0 then -n else n }

  /** `BigInteger.toByteArray()` (and `Int.toBigInteger().toByteArray()`): the shortest
      big-endian two's-complement representation; one byte exactly for -128..127. */
  function ToByteArray(n: int): (r: Bytes)
    ensures Minimal(r)
    ensures |r| == 1 <==> -128 <= n < 128
    decreases Abs(n)
  {
    if -128 <= n < 128 then [IntToByte(n)]
    else ToByteArray(n / 256) + [IntToByte(n)]
  }

  /** The value of a non-empty big-endian two's-complement byte string:
      the first byte is signed, the others are not. */
  function Value(bs: Bytes): (v: int)
    requires |bs| >= 1
    ensures -128 * Pow256(|bs| - 1) <= v < 128 * Pow256(|bs| - 1)
  {
    if |bs| == 1 then ByteToInt(bs[0])
    else Value(bs[..|bs| - 1]) * 256 + bs[|bs| - 1]
  }

  /** `BigInteger(bytes)`: the constructor throws on a zero-length array. */
  function FromByteArray(bs: Bytes): (r: Option<int>)
    ensures r.Some? <==> |bs| >= 1
  {
    if |bs| == 0 then None else Some(Value(bs))
  }

  /** `ByteBuffer.allocate(4).putInt(n).array()`: the low 32 bits of n, big-endian. */
  function PutInt(n: int): (r: Bytes)
    ensures |r| == 4
  {
    [IntToByte(n / 0x100_0000), IntToByte(n / 0x1_0000), IntToByte(n / 0x100), IntToByte(n)]
  }

  /** `ByteBuffer.wrap(bytes).int` on four bytes: big-endian, and negative when the top bit of
      the first byte is set. */
  function GetInt(bs: Bytes): (v: int)
    requires |bs| == 4
    ensures IsInt32(v)
  {
    var u: int := bs[0] as int * 0x100_0000 + bs[1] as int * 0x1_0000 + bs[2] as int * 0x100 + bs[3];
    if bs[0] < 128 then u else u - 0x1_0000_0000
  }

  /** Decoding the minimal encoding gives the integer back, for every integer. */
  lemma {:induction false} ValueOfToByteArray(n: int)
    ensures Value(ToByteArray(n)) == n
    decreases Abs(n)
  {
    if !(-128 <= n < 128) {
      var init := ToByteArray(n / 256);
      ValueOfToByteArray(n / 256);
      var r := ToByteArray(n);
      assert r == init + [IntToByte(n)];
      assert r[..|r| - 1] == init;
    }
  }

  /** The option and block-count round trip: `BigInteger(n.toBigInteger().toByteArray()).toInt() == n`
      for every Kotlin `Int`, and the encoding never takes more than four bytes. */
  lemma {:induction false} IntRoundTrip(n: int)
    requires IsInt32(n)
    ensures FromByteArray(ToByteArray(n)) == Some(n)
    ensures ToInt(FromByteArray(ToByteArray(n)).value) == n
    ensures 1 <= |ToByteArray(n)| <= 4
  {
    ValueOfToByteArray(n);
    ToByteArrayLength(n, 4);
  }

  /** An integer in the range of k bytes is encoded in at most k bytes. */
  lemma {:induction false} ToByteArrayLength(n: int, k: nat)
    requires k >= 1
    requires -128 * Pow256(k - 1) <= n < 128 * Pow256(k - 1)
    ensures |ToByteArray(n)| <= k
    decreases k
  {
    if !(-128 <= n < 128) {
      assert k >= 2;
      ToByteArrayLength(n / 256, k - 1);
    }
  }

  /** The frame-length round trip: `getInt` reads back what `putInt` wrote, for every `Int`. */
  lemma {:induction false} GetPutInt(n: int)
    requires IsInt32(n)
    ensures GetInt(PutInt(n)) == n
  {
    var q1 := n / 0x100;
    var q2 := n / 0x1_0000;
    var q3 := n / 0x100_0000;
    assert q2 == q1 / 0x100;
    assert q3 == q2 / 0x100;
    assert -128 <= q3 < 128;
  }

  /** The option byte A sends to B survives `toByte()` then `toInt()` exactly when it is in -128..127. */
  lemma {:induction false} ByteRoundTrip(n: int)
    ensures ByteToInt(IntToByte(n)) == n <==> -128 <= n < 128
  {
  }
}
