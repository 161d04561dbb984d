/** Fixed-width little-endian integers, as `encoding/binary` lays them out. */
module LittleEndian {
  import opened Base

  function Pow256(width: nat): (r: nat)
    ensures r > 0
  {
    if width == 0 then 1 else 256 * Pow256(width - 1)
  }

  lemma Widths()
    ensures Pow256(2) == 0x1_0000
    ensures Pow256(4) == 0x1_0000_0000
    ensures Pow256(8) == 0x1_0000_0000_0000_0000
  {
    assert Pow256(3) == 256 * Pow256(2);
    assert Pow256(5) == 256 * Pow256(4);
    assert Pow256(7) == 256 * Pow256(6);
  }

  function Encode(n: nat, width: nat): (b: Bytes)
    ensures |b| == width
  {
    if width == 0 then [] else [n % 256] + Encode(n / 256, width - 1)
  }

  function Decode(b: Bytes): (n: nat)
    ensures n < Pow256(|b|)
  {
    if b == [] then 0 else b[0] + 256 * Decode(b[1..])
  }

  lemma {:induction false} DecodeEncode(n: nat, width: nat)
    requires n < Pow256(width)
    ensures Decode(Encode(n, width)) == n
  {
    if width > 0 {
      DecodeEncode(n / 256, width - 1);
      assert Encode(n, width)[1..] == Encode(n / 256, width - 1);
    }
  }

  lemma {:induction false} EncodeDecode(b: Bytes)
    ensures Encode(Decode(b), |b|) == b
  {
    if b != [] {
      EncodeDecode(b[1..]);
      assert Decode(b) % 256 == b[0] && Decode(b) / 256 == Decode(b[1..]);
      assert b == [b[0]] + b[1..];
    }
  }

  function Put16(n: uint16): Bytes { Encode(n, 2) }
  function Put32(n: uint32): Bytes { Encode(n, 4) }
  function Put64(n: uint64): Bytes { Encode(n, 8) }

  function Get16(b: Bytes): uint16 requires |b| == 2 { Widths(); Decode(b) }
  function Get32(b: Bytes): uint32 requires |b| == 4 { Widths(); Decode(b) }
  function Get64(b: Bytes): uint64 requires |b| == 8 { Widths(); Decode(b) }

  /** `uint64(deadline)` and `int64(word)`: two's complement reinterpretation. */
  function Signed(n: uint64): int64 {
    if n < 0x8000_0000_0000_0000 then n else n - 0x1_0000_0000_0000_0000
  }

  function Unsigned(n: int64): uint64 {
    if n >= 0 then n else n + 0x1_0000_0000_0000_0000
  }

  /** Reading back what was written, at each width the formats use. */
  lemma RoundTrip16(n: uint16)
    ensures Get16(Put16(n)) == n
  {
    Widths();
    DecodeEncode(n, 2);
  }

  lemma RoundTrip32(n: uint32)
    ensures Get32(Put32(n)) == n
  {
    Widths();
    DecodeEncode(n, 4);
  }

  lemma RoundTrip64(n: uint64)
    ensures Get64(Put64(n)) == n
  {
    Widths();
    DecodeEncode(n, 8);
  }

  /** Writing back what was read: each field has one encoding only. */
  lemma Canonical16(b: Bytes)
    requires |b| == 2
    ensures Put16(Get16(b)) == b
  {
    EncodeDecode(b);
  }

  lemma Canonical32(b: Bytes)
    requires |b| == 4
    ensures Put32(Get32(b)) == b
  {
    EncodeDecode(b);
  }

  lemma Canonical64(b: Bytes)
    requires |b| == 8
    ensures Put64(Get64(b)) == b
  {
    EncodeDecode(b);
  }
}
