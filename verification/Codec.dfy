/** Bounds-checked big-endian byte access (`codec.rs`). */
module Codec {
  import opened Errors

  type byte = x: int | 0 <= x < 256
  type Bytes = seq<byte>

  const U16_MAX: nat := 0xFFFF
  const U32_MAX: nat := 0xFFFF_FFFF
  const U64_MAX: nat := 0xFFFF_FFFF_FFFF_FFFF
  const I64_MIN: int := -0x8000_0000_0000_0000
  const I64_MAX: int := 0x7FFF_FFFF_FFFF_FFFF

  type u32 = x: int | 0 <= x <= 0xFFFF_FFFF
  type u64 = x: int | 0 <= x <= 0xFFFF_FFFF_FFFF_FFFF
  type i64 = x: int | -0x8000_0000_0000_0000 <= x <= 0x7FFF_FFFF_FFFF_FFFF

  // ------------------------------------------------------------------
  // Big-endian numbers of any width.
  // ------------------------------------------------------------------

  function Pow256(n: nat): (p: nat)
    ensures p > 0
  {
    if n == 0 then 1 else 256 * Pow256(n - 1)
  }

  function ToBE(v: nat, n: nat): (b: Bytes)
    ensures |b| == n
    decreases n
  {
    if n == 0 then [] else ToBE(v / 256, n - 1) + [v % 256]
  }

  function FromBE(b: Bytes): (v: nat)
    ensures v < Pow256(|b|)
  {
    if |b| == 0 then 0 else FromBE(b[..|b| - 1]) * 256 + b[|b| - 1]
  }

  lemma {:induction false} BERoundTrip(v: nat, n: nat)
    requires v < Pow256(n)
    ensures FromBE(ToBE(v, n)) == v
  {
    if n > 0 {
      BERoundTrip(v / 256, n - 1);
      assert ToBE(v, n)[..n - 1] == ToBE(v / 256, n - 1);
    }
  }

  lemma {:induction false} BEInjective(b: Bytes)
    ensures ToBE(FromBE(b), |b|) == b
  {
    if |b| > 0 {
      BEInjective(b[..|b| - 1]);
    }
  }

  /** The first byte is the most significant one. */
  lemma {:induction false} BigEndian(x: byte, rest: Bytes)
    ensures FromBE([x] + rest) == x * Pow256(|rest|) + FromBE(rest)
    decreases |rest|
  {
    var n := |rest|;
    if n == 0 {
      assert [x] + rest == [x] && [x][..0] == [];
    } else {
      BigEndian(x, rest[..n - 1]);
      assert ([x] + rest)[..n] == [x] + rest[..n - 1];
      assert 256 * (x * Pow256(n - 1)) == x * (256 * Pow256(n - 1));
    }
  }

  lemma PowersOf256()
    ensures Pow256(2) == 0x1_0000
    ensures Pow256(4) == 0x1_0000_0000
    ensures Pow256(8) == 0x1_0000_0000_0000_0000
  {
    assert Pow256(2) == 256 * 256;
    assert Pow256(4) == 256 * 256 * Pow256(2);
    assert Pow256(6) == 256 * 256 * Pow256(4);
    assert Pow256(8) == 256 * 256 * Pow256(6);
  }

  // ------------------------------------------------------------------
  // Reads.
  // ------------------------------------------------------------------

  function ReadVec(buf: Bytes, at: nat, len: nat): Result<Bytes>
  {
    if at + len <= |buf| then Ok(buf[at..at + len]) else Err(BufferBounds)
  }

  function ReadU8(buf: Bytes, at: nat): Result<byte>
  {
    if at < |buf| then Ok(buf[at]) else Err(BufferBounds)
  }

  /** The `u16` stored at `at`. */
  function U16(buf: Bytes, at: nat): (v: nat)
    requires at + 2 <= |buf|
    ensures v <= U16_MAX
  {
    buf[at] as nat * 256 + buf[at + 1]
  }

  function U16Bytes(v: nat): (b: Bytes)
    requires v <= U16_MAX
    ensures |b| == 2 && U16(b, 0) == v
  {
    [v / 256, v % 256]
  }

  function ReadU16(buf: Bytes, at: nat): Result<nat>
  {
    if at + 2 <= |buf| then Ok(U16(buf, at)) else Err(BufferBounds)
  }

  /** The `u32` stored at `at`. */
  function U32(buf: Bytes, at: nat): (v: nat)
    requires at + 4 <= |buf|
    ensures v <= U32_MAX
  {
    PowersOf256();
    FromBE(buf[at..at + 4])
  }

  function ReadU32(buf: Bytes, at: nat): Result<nat>
  {
    if at + 4 <= |buf| then Ok(U32(buf, at)) else Err(BufferBounds)
  }

  function U64(buf: Bytes, at: nat): (v: u64)
    requires at + 8 <= |buf|
  {
    PowersOf256();
    FromBE(buf[at..at + 8])
  }

  function ReadU64(buf: Bytes, at: nat): Result<u64>
  {
    if at + 8 <= |buf| then Ok(U64(buf, at)) else Err(BufferBounds)
  }

  /** Two's complement: the bit pattern of a signed 64-bit integer and back. */
  function ToBits(v: i64): u64
  {
    if v >= 0 then v else v + 0x1_0000_0000_0000_0000
  }

  function FromBits(u: u64): i64
  {
    if u <= I64_MAX then u else u - 0x1_0000_0000_0000_0000
  }

  function I64Bytes(v: i64): (b: Bytes)
    ensures |b| == 8
  {
    ToBE(ToBits(v), 8)
  }

  function I64(buf: Bytes, at: nat): i64
    requires at + 8 <= |buf|
  {
    FromBits(U64(buf, at))
  }

  function ReadI64(buf: Bytes, at: nat): Result<i64>
  {
    if at + 8 <= |buf| then Ok(I64(buf, at)) else Err(BufferBounds)
  }

  lemma U32RoundTrip(v: nat)
    requires v <= U32_MAX
    ensures U32(ToBE(v, 4), 0) == v
  {
    PowersOf256();
    BERoundTrip(v, 4);
    assert ToBE(v, 4)[0..4] == ToBE(v, 4);
  }

  lemma U64RoundTrip(v: u64)
    ensures U64(ToBE(v, 8), 0) == v
  {
    PowersOf256();
    BERoundTrip(v, 8);
    assert ToBE(v, 8)[0..8] == ToBE(v, 8);
  }

  lemma I64RoundTrip(v: i64)
    ensures I64(I64Bytes(v), 0) == v
  {
    U64RoundTrip(ToBits(v));
  }

  /** Two's complement: the value and its bit pattern agree modulo 2^64. */
  lemma TwosComplement(v: i64)
    ensures (ToBits(v) - v) % 0x1_0000_0000_0000_0000 == 0 && FromBits(ToBits(v)) == v
    ensures v < 0 <==> ToBits(v) >= 0x8000_0000_0000_0000
  {
  }

  /** Any 8 bytes are the pattern of the value read from them. */
  lemma I64Reads(buf: Bytes, at: nat)
    requires at + 8 <= |buf|
    ensures I64Bytes(I64(buf, at)) == buf[at..at + 8]
  {
    BEInjective(buf[at..at + 8]);
  }

  lemma U64Reads(buf: Bytes, at: nat)
    requires at + 8 <= |buf|
    ensures ToBE(U64(buf, at), 8) == buf[at..at + 8]
  {
    BEInjective(buf[at..at + 8]);
  }

  lemma U32Reads(buf: Bytes, at: nat)
    requires at + 4 <= |buf|
    ensures ToBE(U32(buf, at), 4) == buf[at..at + 4]
  {
    BEInjective(buf[at..at + 4]);
  }

  lemma NumberAt(buf: Bytes, at: nat, e: Bytes)
    requires at + |e| <= |buf| && buf[at..at + |e|] == e
    ensures |e| == 4 ==> U32(buf, at) == U32(e, 0)
    ensures |e| == 8 ==> U64(buf, at) == U64(e, 0)
  {
    assert e[0..|e|] == e;
  }

  // ------------------------------------------------------------------
  // Writes into a fixed-size buffer.
  // ------------------------------------------------------------------

  function Zeros(n: nat): (z: Bytes)
    ensures |z| == n
  {
    seq(n, i => 0)
  }

  lemma {:induction false} BEZero(n: nat)
    ensures ToBE(0, n) == Zeros(n)
  {
    if n > 0 {
      BEZero(n - 1);
      assert Zeros(n - 1) + [0] == Zeros(n);
    }
  }

  /** `buf` with `bytes` laid over it from `at` on. */
  function Splice(buf: Bytes, at: nat, bytes: Bytes): (r: Bytes)
    requires at + |bytes| <= |buf|
    ensures |r| == |buf|
    ensures forall i {:trigger r[i]} | 0 <= i < |buf| :: r[i] == if at <= i < at + |bytes| then bytes[i - at] else buf[i]
  {
    buf[..at] + bytes + buf[at + |bytes|..]
  }

  /** What `write_bytes` leaves in the buffer, or its error. */
  function Written(buf: Bytes, at: nat, bytes: Bytes): (r: Result<Bytes>)
    ensures r.Ok? ==> |r.value| == |buf|
  {
    if at + |bytes| <= |buf| then Ok(Splice(buf, at, bytes)) else Err(BufferBounds)
  }

  lemma SliceOfSlice<T>(s: seq<T>, a: nat, b: nat, c: nat, d: nat)
    requires a <= b <= |s| && c <= d <= b - a
    ensures s[a..b][c..d] == s[a + c..a + d]
  {
    var x, y := s[a..b][c..d], s[a + c..a + d];
    assert |x| == |y|;
    forall i | 0 <= i < |x|
      ensures x[i] == y[i]
    {
      assert x[i] == s[a..b][c + i] == s[a + c + i];
    }
  }

  lemma SpliceReadsBack(buf: Bytes, at: nat, bytes: Bytes)
    requires at + |bytes| <= |buf|
    ensures Splice(buf, at, bytes)[at..at + |bytes|] == bytes
  {
  }

  lemma SpliceElsewhere(buf: Bytes, at: nat, bytes: Bytes, from: nat, to: nat)
    requires at + |bytes| <= |buf| && from <= to <= |buf| && (to <= at || at + |bytes| <= from)
    ensures Splice(buf, at, bytes)[from..to] == buf[from..to]
  {
  }

  /** `vec![0u8; n]`. */
  method NewZeros(n: nat) returns (buf: array<byte>)
    ensures fresh(buf) && buf[..] == Zeros(n)
  {
    buf := new byte[n](i => 0);
  }

  /** `to_vec` and `clone`. */
  method NewCopy(bytes: Bytes) returns (buf: array<byte>)
    ensures fresh(buf) && buf[..] == bytes
  {
    buf := new byte[|bytes|](i requires 0 <= i < |bytes| => bytes[i]);
  }

  method WriteBytes(buf: array<byte>, at: nat, bytes: Bytes) returns (r: Result<Unit>)
    modifies buf
    ensures r.Ok? <==> at + |bytes| <= buf.Length
    ensures r.Ok? ==> buf[..] == Splice(old(buf[..]), at, bytes)
    ensures r.Err? ==> r.error == BufferBounds && buf[..] == old(buf[..])
  {
    if at + |bytes| > buf.Length {
      return Err(BufferBounds);
    }
    forall i | 0 <= i < |bytes| {
      buf[at + i] := bytes[i];
    }
    return Ok(Done);
  }

  // ------------------------------------------------------------------
  // Byte positions.
  // ------------------------------------------------------------------

  /** The positions of `len` bytes at `at`. */
  function Span(at: nat, len: nat): (r: set<nat>)
    ensures |r| == len
    ensures forall p: nat :: p in r <==> at <= p < at + len
  {
    if len == 0 then {} else Span(at, len - 1) + {at + len - 1}
  }
}
