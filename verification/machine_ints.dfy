/** Fixed-width integers of the C++ source and their byte encodings.

    Dafny integers are unbounded; the widths that matter in the routing core are
    written out here: bytes written with `WriteU8`, the 32-bit receive counter,
    64-bit timestamps and tags, and the `int32` node ids.
 */
module MachineInts {

  type byte = x: int | 0 <= x < 0x100
  type uint32 = x: int | 0 <= x < 0x1_0000_0000
  type uint64 = x: int | 0 <= x < 0x1_0000_0000_0000_0000
  type int32 = x: int | -0x8000_0000 <= x < 0x8000_0000

  const UINT64_MAX: uint64 := 0xFFFF_FFFF_FFFF_FFFF

  /** 256 to the power n: the number of values n bytes can hold. */
  function Pow256(n: nat): (p: nat)
    ensures p >= 1
  {
    if n == 0 then 1 else 256 * Pow256(n - 1)
  }

  /** Truncation of an integer to its least significant byte, as `WriteU8` does
      with a wider argument (two's complement, so -1 becomes 255). */
  function LowByte(x: int): (b: byte)
    ensures (b - x) % 0x100 == 0
  {
    x % 0x100
  }

  /** Conversion of an unsigned value to `int32` (two's complement wrap-around of
      the low 32 bits, as every compiler the source targets performs it). */
  function ToInt32(x: uint64): (r: int32)
    ensures (r - x) % 0x1_0000_0000 == 0
    ensures x < 0x8000_0000 ==> r == x
  {
    var low := x % 0x1_0000_0000;
    if low < 0x8000_0000 then low else low - 0x1_0000_0000
  }

  /** Reinterpretation of an `int32` as the unsigned 32-bit pattern that holds it. */
  function FromInt32(x: int32): (r: uint32)
    ensures (r - x) % 0x1_0000_0000 == 0
  {
    if x >= 0 then x else x + 0x1_0000_0000
  }

  lemma Int32PatternRoundTrip(x: int32)
    ensures ToInt32(FromInt32(x)) == x
  {
  }

  // ---------------------------------------------------------------------------
  // Big-endian (network order): `WriteHtonU64` / `ReadNtohU64`.

  /** The n-byte big-endian encoding of x (most significant byte first). */
  function EncodeBE(x: nat, n: nat): (s: seq<byte>)
    ensures |s| == n
  {
    if n == 0 then [] else EncodeBE(x / 0x100, n - 1) + [x % 0x100]
  }

  /** The value of a big-endian byte string. */
  function DecodeBE(s: seq<byte>): (v: nat)
    ensures v < Pow256(|s|)
  {
    if |s| == 0 then 0 else DecodeBE(s[..|s| - 1]) * 0x100 + s[|s| - 1]
  }

  lemma {:induction false} DecodeEncodeBE(x: nat, n: nat)
    requires x < Pow256(n)
    ensures DecodeBE(EncodeBE(x, n)) == x
  {
    if n > 0 {
      var s := EncodeBE(x, n);
      assert s[..|s| - 1] == EncodeBE(x / 0x100, n - 1);
      DecodeEncodeBE(x / 0x100, n - 1);
    }
  }

  lemma {:induction false} EncodeDecodeBE(s: seq<byte>)
    ensures EncodeBE(DecodeBE(s), |s|) == s
  {
    if |s| > 0 {
      var init := s[..|s| - 1];
      EncodeDecodeBE(init);
      var v := DecodeBE(s);
      assert v / 0x100 == DecodeBE(init);
      assert v % 0x100 == s[|s| - 1];
      assert s == init + [s[|s| - 1]];
    }
  }

  // ---------------------------------------------------------------------------
  // Little-endian: ns-3's `TagBuffer::WriteU64` / `ReadU64` write the least
  // significant byte first.

  function EncodeLE(x: nat, n: nat): (s: seq<byte>)
    ensures |s| == n
  {
    if n == 0 then [] else [x % 0x100] + EncodeLE(x / 0x100, n - 1)
  }

  function DecodeLE(s: seq<byte>): (v: nat)
    ensures v < Pow256(|s|)
  {
    if |s| == 0 then 0 else s[0] + 0x100 * DecodeLE(s[1..])
  }

  lemma {:induction false} DecodeEncodeLE(x: nat, n: nat)
    requires x < Pow256(n)
    ensures DecodeLE(EncodeLE(x, n)) == x
  {
    if n > 0 {
      var s := EncodeLE(x, n);
      assert s[1..] == EncodeLE(x / 0x100, n - 1);
      DecodeEncodeLE(x / 0x100, n - 1);
    }
  }

  lemma {:induction false} EncodeDecodeLE(s: seq<byte>)
    ensures EncodeLE(DecodeLE(s), |s|) == s
  {
    if |s| > 0 {
      EncodeDecodeLE(s[1..]);
      var v := DecodeLE(s);
      assert v % 0x100 == s[0];
      assert v / 0x100 == DecodeLE(s[1..]);
      assert s == [s[0]] + s[1..];
    }
  }

  lemma Pow256Eight()
    ensures Pow256(8) == 0x1_0000_0000_0000_0000
    ensures Pow256(4) == 0x1_0000_0000
  {
  }
}
