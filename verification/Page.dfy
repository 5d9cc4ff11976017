/** Page sizes, layout constants and the page checksum (`page.rs`).

    The hash is a parameter of type `Hash`: nothing proved here depends on
    which 64-bit function it is. */
module Page {
  import opened Errors
  import opened Codec

  type Hash = Bytes -> u64

  const CHECKSUM_LEN: nat := 8
  const META_SLOT_LEN: nat := 4096
  const META_REGION_LEN: nat := 8192
  const FIRST_DATA_PAGE_ID: nat := 2
  const EMPTY_TREE_ROOT: nat := 0

  const TYPE_LEAF: byte := 1
  const TYPE_INTERIOR: byte := 2
  const TYPE_OVERFLOW: byte := 3

  type PageSize = n: nat | n == 4096 || n == 8192 || n == 16384 || n == 32768 || n == 65536
    witness 4096

  predicate IsPowerOfTwo(n: nat)
    decreases n
  {
    n == 1 || (n > 1 && n % 2 == 0 && IsPowerOfTwo(n / 2))
  }

  lemma {:induction false} SmallPowersOfTwo(n: nat)
    requires IsPowerOfTwo(n) && n <= 65536
    ensures n in {1, 2, 4, 8, 16, 32, 64, 128, 256, 512, 1024, 2048, 4096, 8192, 16384, 32768, 65536}
  {
    if n > 1 {
      SmallPowersOfTwo(n / 2);
    }
  }

  /** `PageSize::try_from`. */
  function PageSizeTryFrom(value: nat): Result<PageSize>
  {
    if IsPowerOfTwo(value) && 4096 <= value <= 65536
    then SmallPowersOfTwo(value); Ok(value)
    else Err(InvalidPageSize)
  }

  lemma Double(n: nat)
    requires IsPowerOfTwo(n)
    ensures IsPowerOfTwo(2 * n)
  {
  }

  lemma TimesSixteen(n: nat)
    requires IsPowerOfTwo(n)
    ensures IsPowerOfTwo(16 * n)
  {
    hide IsPowerOfTwo;
    Double(n);
    Double(2 * n);
    Double(4 * n);
    Double(8 * n);
  }

  lemma PageSizePowers()
    ensures IsPowerOfTwo(4096) && IsPowerOfTwo(8192) && IsPowerOfTwo(16384) && IsPowerOfTwo(32768) && IsPowerOfTwo(65536)
  {
    assert IsPowerOfTwo(1);
    hide IsPowerOfTwo;
    TimesSixteen(1);
    TimesSixteen(16);
    TimesSixteen(256);
    Double(4096);
    Double(8192);
    Double(16384);
    Double(32768);
  }

  /** The five locked sizes are exactly the accepted ones. */
  lemma PageSizeAccepts(value: nat)
    ensures PageSizeTryFrom(value).Ok? <==> value in {4096, 8192, 16384, 32768, 65536}
  {
    PageSizePowers();
    hide IsPowerOfTwo;
    if IsPowerOfTwo(value) && value <= 65536 {
      SmallPowersOfTwo(value);
    }
  }

  function UsableSpace(ps: PageSize): nat { ps - CHECKSUM_LEN }

  function MaxLocal(ps: PageSize): nat { UsableSpace(ps) - 35 }

  // ------------------------------------------------------------------
  // Checksums.
  // ------------------------------------------------------------------

  /** The checksummed part of a buffer. */
  function Content(buf: Bytes): Bytes
  {
    if |buf| >= CHECKSUM_LEN then buf[..|buf| - CHECKSUM_LEN] else []
  }

  function Stamped(h: Hash, buf: Bytes): (r: Bytes)
    requires |buf| >= CHECKSUM_LEN
    ensures |r| == |buf|
  {
    Splice(buf, |buf| - CHECKSUM_LEN, ToBE(h(Content(buf)), 8))
  }

  predicate VerifyChecksum(h: Hash, buf: Bytes)
  {
    (if |buf| >= CHECKSUM_LEN then U64(buf, |buf| - CHECKSUM_LEN) else 0) == h(Content(buf))
  }

  /** The last eight bytes are the hash of all bytes before them. */
  predicate Sealed(h: Hash, buf: Bytes) {
    |buf| >= 8 && buf[|buf| - 8..] == ToBE(h(buf[..|buf| - 8]), 8)
  }

  /** Verifying is exactly that: nothing else passes. */
  lemma VerifiesIff(h: Hash, buf: Bytes)
    requires |buf| >= CHECKSUM_LEN
    ensures VerifyChecksum(h, buf) <==> Sealed(h, buf)
  {
    hide ToBE, FromBE;
    var at := |buf| - 8;
    var sum := h(buf[..at]);
    U64Reads(buf, at);
    assert buf[at..at + 8] == buf[at..];
    if buf[at..] == ToBE(sum, 8) {
      NumberAt(buf, at, ToBE(sum, 8));
      U64RoundTrip(sum);
    }
  }

  /** Two buffers that agree everywhere outside the checksum trailer. */
  predicate SameBody(a: Bytes, b: Bytes)
  {
    |a| == |b| && |a| >= CHECKSUM_LEN && Content(a) == Content(b)
  }

  /** Stamping changes the trailer only, and a stamped page verifies. */
  lemma StampVerifies(h: Hash, buf: Bytes)
    requires |buf| >= CHECKSUM_LEN
    ensures SameBody(Stamped(h, buf), buf)
    ensures VerifyChecksum(h, Stamped(h, buf))
    ensures Stamped(h, Stamped(h, buf)) == Stamped(h, buf)
  {
    var s := Stamped(h, buf);
    var at := |buf| - CHECKSUM_LEN;
    var sum := ToBE(h(Content(buf)), 8);
    assert Content(s) == Content(buf);
    assert s[at..at + 8] == sum;
    PowersOf256();
    BERoundTrip(h(Content(buf)), 8);
  }

  method StampChecksum(h: Hash, buf: array<byte>) returns (r: Result<Unit>)
    modifies buf
    ensures r.Ok? <==> buf.Length >= CHECKSUM_LEN
    ensures r.Ok? ==> buf[..] == Stamped(h, old(buf[..]))
    ensures r.Err? ==> buf[..] == old(buf[..])
  {
    var checksum := if buf.Length >= CHECKSUM_LEN then h(buf[..buf.Length - CHECKSUM_LEN]) else h([]);
    var at := if buf.Length >= CHECKSUM_LEN then buf.Length - CHECKSUM_LEN else 0;
    assert buf.Length >= CHECKSUM_LEN ==> buf[..buf.Length - CHECKSUM_LEN] == Content(buf[..]);
    r := WriteBytes(buf, at, ToBE(checksum, 8));
  }
}
