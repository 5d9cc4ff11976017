/** The row codec (`row.rs`): value tuples to and from the byte payload of a
    leaf cell. TEXT is a sequence of bytes that is valid UTF-8, REAL is a 64-bit
    pattern that is not a NaN. */
module RowCodec {
  import opened Errors
  import opened Codec

  const TAG_NULL: byte := 0
  const TAG_INTEGER: byte := 1
  const TAG_REAL: byte := 2
  const TAG_TEXT: byte := 3
  const TAG_BLOB: byte := 4
  const TAG_BOOLEAN: byte := 5
  const TAG_DATETIME: byte := 6

  /** A double is a NaN when its exponent is all ones and its fraction is not 0. */
  predicate IsNaN(bits: u64) {
    bits % 0x8000_0000_0000_0000 > 0x7FF0_0000_0000_0000
  }

  predicate Continues(s: Bytes, n: nat) {
    n < |s| && forall i | 1 <= i <= n :: 0x80 <= s[i] < 0xC0
  }

  /** How many bytes the character at the front takes; 0 if it is ill formed
      (table 3-7 of the Unicode Standard). */
  function Utf8Len(s: Bytes): (n: nat)
    ensures n <= |s|
  {
    if |s| == 0 then 0
    else if s[0] < 0x80 then 1
    else if 0xC2 <= s[0] < 0xE0 && Continues(s, 1) then 2
    else if 0xE0 <= s[0] < 0xF0 && Continues(s, 2) && (s[0] == 0xE0 ==> 0xA0 <= s[1]) && (s[0] == 0xED ==> s[1] < 0xA0) then 3
    else if 0xF0 <= s[0] < 0xF5 && Continues(s, 3) && (s[0] == 0xF0 ==> 0x90 <= s[1]) && (s[0] == 0xF4 ==> s[1] < 0x90) then 4
    else 0
  }

  /** Well-formed UTF-8 byte sequences. */
  predicate ValidUtf8(s: Bytes)
  {
    |s| == 0 || (Utf8Len(s) > 0 && ValidUtf8(s[Utf8Len(s)..]))
  }

  type RealBits = b: u64 | !IsNaN(b) witness 0
  type Utf8 = s: Bytes | ValidUtf8(s) witness []

  datatype Value =
    | Null
    | Integer(int64: i64)
    | Real(bits: RealBits)
    | Text(text: Utf8)
    | Blob(blob: Bytes)
    | Boolean(flag: bool)
    | Datetime(nanos: i64)

  datatype Row = Row(values: seq<Value>)

  // ------------------------------------------------------------------
  // Encoding.
  // ------------------------------------------------------------------

  function LenPrefixed(bytes: Bytes): Result<Bytes> {
    if |bytes| > U32_MAX then Err(PayloadTooLarge) else Ok(ToBE(|bytes|, 4) + bytes)
  }

  /** The bytes `encode_value` appends. */
  function EncodeValue(v: Value): Result<Bytes> {
    match v
    case Null => Ok([TAG_NULL])
    case Integer(i) => Ok([TAG_INTEGER] + I64Bytes(i))
    case Real(bits) => Ok([TAG_REAL] + ToBE(bits, 8))
    case Text(t) => var e :- LenPrefixed(t); Ok([TAG_TEXT] + e)
    case Blob(b) => var e :- LenPrefixed(b); Ok([TAG_BLOB] + e)
    case Boolean(f) => Ok([TAG_BOOLEAN, if f then 1 else 0])
    case Datetime(n) => Ok([TAG_DATETIME] + I64Bytes(n))
  }

  function EncodeValues(vs: seq<Value>): Result<Bytes> {
    if |vs| == 0 then Ok([])
    else
      var before :- EncodeValues(vs[..|vs| - 1]);
      var last :- EncodeValue(vs[|vs| - 1]);
      Ok(before + last)
  }

  /** `Row::encode` as a value. */
  function EncodeRow(row: Row): Result<Bytes> {
    if |row.values| > U32_MAX then Err(PayloadTooLarge)
    else
      var body :- EncodeValues(row.values);
      Ok(ToBE(|row.values|, 4) + body)
  }

  method Encode(row: Row) returns (r: Result<Bytes>)
    ensures r == EncodeRow(row)
  {
    hide ToBE, EncodeValue;
    if |row.values| > U32_MAX {
      return Err(PayloadTooLarge);
    }
    var buf := ToBE(|row.values|, 4);
    for i := 0 to |row.values|
      invariant EncodeValues(row.values[..i]).Ok?
      invariant buf == ToBE(|row.values|, 4) + EncodeValues(row.values[..i]).value
    {
      assert row.values[..i + 1][..i] == row.values[..i];
      EncodePrefixErr(row.values, i + 1);
      var e :- EncodeValue(row.values[i]);
      buf := buf + e;
    }
    assert row.values[..|row.values|] == row.values;
    return Ok(buf);
  }

  lemma {:induction false} EncodePrefixErr(vs: seq<Value>, i: nat)
    requires i <= |vs|
    ensures EncodeValues(vs[..i]).Err? ==> EncodeValues(vs) == EncodeValues(vs[..i])
    decreases |vs| - i
  {
    if i == |vs| {
      assert vs[..i] == vs;
    } else {
      EncodePrefixErr(vs, i + 1);
      assert vs[..i + 1][..i] == vs[..i];
    }
  }

  predicate Encodable(v: Value) {
    && (v.Text? ==> |v.text| <= U32_MAX)
    && (v.Blob? ==> |v.blob| <= U32_MAX)
  }

  /** Encoding fails only for a text, a blob or a row with too long a length,
      and then always with the same error. */
  lemma {:induction false} EncodeFailsExactly(row: Row)
    ensures EncodeRow(row).Ok? <==> |row.values| <= U32_MAX && forall i | 0 <= i < |row.values| :: Encodable(row.values[i])
    ensures EncodeRow(row).Err? ==> EncodeRow(row).error == PayloadTooLarge
  {
    EncodeValuesFails(row.values);
  }

  lemma EncodeValueFails(v: Value)
    ensures EncodeValue(v).Ok? <==> Encodable(v)
    ensures EncodeValue(v).Err? ==> EncodeValue(v).error == PayloadTooLarge
  {
    hide ToBE;
  }

  lemma {:induction false} EncodeValuesFails(vs: seq<Value>)
    ensures EncodeValues(vs).Ok? <==> forall i | 0 <= i < |vs| :: Encodable(vs[i])
    ensures EncodeValues(vs).Err? ==> EncodeValues(vs).error == PayloadTooLarge
  {
    hide EncodeValue, Encodable;
    if |vs| > 0 {
      var n := |vs| - 1;
      EncodeValuesFails(vs[..n]);
      EncodeValueFails(vs[n]);
      assert forall i | 0 <= i < n :: vs[..n][i] == vs[i];
    }
  }

  // ------------------------------------------------------------------
  // Decoding.
  // ------------------------------------------------------------------

  function ReadLenPrefixed(buf: Bytes, at: nat): Result<(Bytes, nat)> {
    var len :- ReadU32(buf, at);
    var bytes :- ReadVec(buf, at + 4, len);
    Ok((bytes, at + 4 + len))
  }

  /** `decode_value`: the value at `at` and where the next one starts. */
  function DecodeValue(buf: Bytes, at: nat): Result<(Value, nat)> {
    var tag :- ReadU8(buf, at);
    if tag == TAG_NULL then Ok((Null, at + 1))
    else if tag == TAG_INTEGER then var v :- ReadI64(buf, at + 1); Ok((Integer(v), at + 9))
    else if tag == TAG_REAL then
      var bits :- ReadU64(buf, at + 1);
      if IsNaN(bits) then Err(InvalidRowEncoding) else Ok((Real(bits), at + 9))
    else if tag == TAG_TEXT then
      var (bytes, next) :- ReadLenPrefixed(buf, at + 1);
      if ValidUtf8(bytes) then Ok((Text(bytes), next)) else Err(InvalidRowEncoding)
    else if tag == TAG_BLOB then
      var (bytes, next) :- ReadLenPrefixed(buf, at + 1);
      Ok((Blob(bytes), next))
    else if tag == TAG_BOOLEAN then var raw :- ReadU8(buf, at + 1); Ok((Boolean(raw != 0), at + 2))
    else if tag == TAG_DATETIME then var v :- ReadI64(buf, at + 1); Ok((Datetime(v), at + 9))
    else Err(InvalidRowEncoding)
  }

  /** The first `count` values and the position after them. */
  function DecodeUpTo(buf: Bytes, count: nat): Result<(seq<Value>, nat)> {
    if count == 0 then Ok(([], 4))
    else
      var (vs, at) :- DecodeUpTo(buf, count - 1);
      var (v, next) :- DecodeValue(buf, at);
      Ok((vs + [v], next))
  }

  /** `Row::decode` as a value. */
  function DecodeRow(buf: Bytes): Result<Row> {
    var count :- ReadU32(buf, 0);
    var (vs, _) :- DecodeUpTo(buf, count);
    Ok(Row(vs))
  }

  method Decode(buf: Bytes) returns (r: Result<Row>)
    ensures r == DecodeRow(buf)
  {
    var at := 0;
    var count :- ReadU32(buf, at);
    at := at + 4;
    var values: seq<Value> := [];
    for i := 0 to count
      invariant DecodeUpTo(buf, i) == Ok((values, at))
    {
      DecodePrefixErr(buf, i + 1, count);
      var decoded :- DecodeValue(buf, at);
      values, at := values + [decoded.0], decoded.1;
    }
    return Ok(Row(values));
  }

  lemma {:induction false} DecodePrefixErr(buf: Bytes, i: nat, count: nat)
    requires i <= count
    ensures DecodeUpTo(buf, i).Err? ==> DecodeUpTo(buf, count) == Err(DecodeUpTo(buf, i).error)
    decreases count - i
  {
    if i < count {
      DecodePrefixErr(buf, i + 1, count);
    }
  }

  // ------------------------------------------------------------------
  // Round trips.
  // ------------------------------------------------------------------

  lemma LenPrefixedRoundTrip(buf: Bytes, at: nat, bytes: Bytes)
    requires |bytes| <= U32_MAX
    requires at + 4 + |bytes| <= |buf| && buf[at..at + 4 + |bytes|] == ToBE(|bytes|, 4) + bytes
    ensures ReadLenPrefixed(buf, at) == Ok((bytes, at + 4 + |bytes|))
  {
    hide ToBE, FromBE, U32, ReadLenPrefixed;
    PrefixParts(buf, at, ToBE(|bytes|, 4), bytes);
    LenAt(buf, at, |bytes|);
    ReadParts(buf, at, bytes);
  }

  lemma ReadParts(buf: Bytes, at: nat, bytes: Bytes)
    requires at + 4 + |bytes| <= |buf| && U32(buf, at) == |bytes| && buf[at + 4..at + 4 + |bytes|] == bytes
    ensures ReadLenPrefixed(buf, at) == Ok((bytes, at + 4 + |bytes|))
  {
    hide U32;
  }

  lemma PrefixParts(buf: Bytes, at: nat, len: Bytes, bytes: Bytes)
    requires |len| == 4 && at + 4 + |bytes| <= |buf| && buf[at..at + 4 + |bytes|] == len + bytes
    ensures buf[at..at + 4] == len && buf[at + 4..at + 4 + |bytes|] == bytes
  {
    var e := len + bytes;
    SliceOfSlice(buf, at, at + 4 + |bytes|, 0, 4);
    SliceOfSlice(buf, at, at + 4 + |bytes|, 4, 4 + |bytes|);
    assert e[0..4] == len && e[4..4 + |bytes|] == bytes;
  }

  lemma LenAt(buf: Bytes, at: nat, len: nat)
    requires len <= U32_MAX && at + 4 <= |buf| && buf[at..at + 4] == ToBE(len, 4)
    ensures U32(buf, at) == len
  {
    hide ToBE, FromBE;
    NumberAt(buf, at, ToBE(len, 4));
    U32RoundTrip(len);
  }

  /** Decoding a value advances by exactly its encoded length, whatever follows. */
  lemma ValueRoundTrip(buf: Bytes, at: nat, v: Value)
    requires EncodeValue(v).Ok?
    requires at + |EncodeValue(v).value| <= |buf|
    requires buf[at..at + |EncodeValue(v).value|] == EncodeValue(v).value
    ensures DecodeValue(buf, at) == Ok((v, at + |EncodeValue(v).value|))
  {
    hide ToBE, FromBE, ValidUtf8;
    var e := EncodeValue(v).value;
    assert buf[at] == e[0];
    SliceOfSlice(buf, at, at + |e|, 1, |e|);
    assert buf[at + 1..at + |e|] == e[1..];
    match v
    case Null =>
    case Integer(i) =>
      assert e[1..] == I64Bytes(i);
      NumberAt(buf, at + 1, I64Bytes(i));
      I64RoundTrip(i);
    case Real(bits) =>
      assert e[1..] == ToBE(bits, 8);
      NumberAt(buf, at + 1, ToBE(bits, 8));
      U64RoundTrip(bits);
    case Text(t) =>
      assert e[1..] == ToBE(|t|, 4) + t;
      LenPrefixedRoundTrip(buf, at + 1, t);
    case Blob(b) =>
      assert e[1..] == ToBE(|b|, 4) + b;
      LenPrefixedRoundTrip(buf, at + 1, b);
    case Boolean(f) =>
      assert buf[at + 1] == e[1];
    case Datetime(n) =>
      assert e[1..] == I64Bytes(n);
      NumberAt(buf, at + 1, I64Bytes(n));
      I64RoundTrip(n);
  }

  lemma {:induction false} ValuesRoundTrip(buf: Bytes, vs: seq<Value>)
    requires EncodeValues(vs).Ok?
    requires 4 + |EncodeValues(vs).value| <= |buf|
    requires buf[4..4 + |EncodeValues(vs).value|] == EncodeValues(vs).value
    ensures DecodeUpTo(buf, |vs|) == Ok((vs, 4 + |EncodeValues(vs).value|))
  {
    hide EncodeValue, DecodeValue;
    if |vs| > 0 {
      var n := |vs| - 1;
      var before, last := EncodeValues(vs[..n]).value, EncodeValue(vs[n]).value;
      var all := before + last;
      assert all[..|before|] == before && all[|before|..] == last;
      SliceOfSlice(buf, 4, 4 + |all|, 0, |before|);
      SliceOfSlice(buf, 4, 4 + |all|, |before|, |all|);
      ValuesRoundTrip(buf, vs[..n]);
      ValueRoundTrip(buf, 4 + |before|, vs[n]);
      assert vs[..n] + [vs[n]] == vs;
    }
  }

  /** A row decodes to itself from its encoding followed by anything. */
  lemma RowRoundTrip(row: Row, suffix: Bytes)
    requires EncodeRow(row).Ok?
    ensures DecodeRow(EncodeRow(row).value + suffix) == Ok(row)
  {
    hide ToBE, FromBE;
    var n := |row.values|;
    var body := EncodeValues(row.values).value;
    var buf := EncodeRow(row).value + suffix;
    assert buf[0..4] == ToBE(n, 4);
    assert buf[4..4 + |body|] == body;
    NumberAt(buf, 0, ToBE(n, 4));
    U32RoundTrip(n);
    ValuesRoundTrip(buf, row.values);
  }

  // ------------------------------------------------------------------
  // Nothing shorter than its encoding decodes to a row.
  // ------------------------------------------------------------------

  lemma ValueLength(buf: Bytes, at: nat)
    requires DecodeValue(buf, at).Ok?
    ensures var (v, next) := DecodeValue(buf, at).value;
      EncodeValue(v).Ok? && next == at + |EncodeValue(v).value| && next <= |buf|
  {
    hide ToBE, FromBE, ValidUtf8, ReadLenPrefixed, IsNaN, I64, U64, LenPrefixed;
    PrefixedLength(buf, at + 1);
  }

  lemma PrefixedLength(buf: Bytes, at: nat)
    ensures ReadLenPrefixed(buf, at).Ok? ==>
      var (bytes, next) := ReadLenPrefixed(buf, at).value;
      && LenPrefixed(bytes).Ok? && next == at + |LenPrefixed(bytes).value| && next <= |buf|
  {
    hide ToBE, FromBE;
  }

  lemma {:induction false} ValuesLength(buf: Bytes, count: nat)
    requires DecodeUpTo(buf, count).Ok? && |buf| >= 4
    ensures var (vs, at) := DecodeUpTo(buf, count).value;
      |vs| == count && EncodeValues(vs).Ok? && at == 4 + |EncodeValues(vs).value| && at <= |buf|
  {
    hide EncodeValue, DecodeValue;
    if count > 0 {
      ValuesLength(buf, count - 1);
      var (vs, at) := DecodeUpTo(buf, count - 1).value;
      ValueLength(buf, at);
      var (v, next) := DecodeValue(buf, at).value;
      assert (vs + [v])[..|vs + [v]| - 1] == vs;
    }
  }

  /** A buffer that decodes to `row` is at least as long as its encoding. */
  lemma RowLength(buf: Bytes)
    requires DecodeRow(buf).Ok?
    ensures var row := DecodeRow(buf).value;
      EncodeRow(row).Ok? && |EncodeRow(row).value| <= |buf|
  {
    hide ToBE, FromBE;
    ValuesLength(buf, U32(buf, 0));
  }

  // ------------------------------------------------------------------
  // What decodes, and what is rejected.
  // ------------------------------------------------------------------

  /** How many bytes a value takes. */
  function ValueSize(v: Value): nat {
    match v
    case Null => 1
    case Boolean(_) => 2
    case Text(t) => 5 + |t|
    case Blob(b) => 5 + |b|
    case _ => 9
  }

  /** `bytes` stand for `v`: they are its encoding, or, for a true boolean, the tag
      and any byte but 0. */
  predicate StandsFor(bytes: Bytes, v: Value) {
    || EncodeValue(v) == Ok(bytes)
    || (v == Boolean(true) && |bytes| == 2 && bytes[0] == TAG_BOOLEAN && bytes[1] != 0)
  }

  lemma StandsForSize(bytes: Bytes, v: Value)
    requires StandsFor(bytes, v)
    ensures |bytes| == ValueSize(v)
  {
    hide ToBE;
  }

  /** A decoded prefixed string is the length and the bytes found. */
  lemma PrefixedReads(buf: Bytes, at: nat)
    requires ReadLenPrefixed(buf, at).Ok?
    ensures var (bytes, next) := ReadLenPrefixed(buf, at).value;
      at <= next <= |buf| && LenPrefixed(bytes) == Ok(buf[at..next])
  {
    hide ToBE, FromBE, U32;
    var (bytes, next) := ReadLenPrefixed(buf, at).value;
    U32Reads(buf, at);
    assert buf[at..next] == buf[at..at + 4] + buf[at + 4..next];
  }

  lemma TagAndRest(buf: Bytes, at: nat, next: nat)
    requires at < next <= |buf|
    ensures buf[at..next] == [buf[at]] + buf[at + 1..next]
  {
  }

  lemma FixedStands(buf: Bytes, at: nat)
    requires DecodeValue(buf, at).Ok? && buf[at] != TAG_TEXT && buf[at] != TAG_BLOB
    ensures var (v, next) := DecodeValue(buf, at).value;
      at < next <= |buf| && StandsFor(buf[at..next], v)
  {
    var (v, next) := DecodeValue(buf, at).value;
    hide ToBE, FromBE, ValidUtf8, IsNaN, ReadLenPrefixed, LenPrefixed;
    TagAndRest(buf, at, next);
    match v
    case Null => assert buf[at..next] == [TAG_NULL];
    case Integer(_) => I64Reads(buf, at + 1);
    case Datetime(_) => I64Reads(buf, at + 1);
    case Real(_) => U64Reads(buf, at + 1);
    case Boolean(_) => assert buf[at..next] == [TAG_BOOLEAN, buf[at + 1]];
  }

  lemma PrefixedStands(buf: Bytes, at: nat)
    requires DecodeValue(buf, at).Ok? && (buf[at] == TAG_TEXT || buf[at] == TAG_BLOB)
    ensures var (v, next) := DecodeValue(buf, at).value;
      at < next <= |buf| && StandsFor(buf[at..next], v)
  {
    var (v, next) := DecodeValue(buf, at).value;
    hide ToBE, FromBE, ValidUtf8, IsNaN, ReadLenPrefixed, LenPrefixed, U32, I64, U64;
    PrefixedReads(buf, at + 1);
    TagAndRest(buf, at, next);
  }

  /** Decoding gives only what the bytes stand for. */
  lemma DecodedStands(buf: Bytes, at: nat)
    requires DecodeValue(buf, at).Ok?
    ensures var (v, next) := DecodeValue(buf, at).value;
      at <= next <= |buf| && StandsFor(buf[at..next], v)
  {
    hide DecodeValue, StandsFor;
    DecodedTag(buf, at);
    if buf[at] == TAG_TEXT || buf[at] == TAG_BLOB {
      PrefixedStands(buf, at);
    } else {
      FixedStands(buf, at);
    }
  }

  lemma DecodedTag(buf: Bytes, at: nat)
    requires DecodeValue(buf, at).Ok?
    ensures at < |buf|
  {
  }

  /** A value decodes at `at` if and only if the bytes there stand for it. */
  lemma DecodesIff(buf: Bytes, at: nat, v: Value, next: nat)
    ensures DecodeValue(buf, at) == Ok((v, next)) <==> at <= next <= |buf| && StandsFor(buf[at..next], v)
  {
    hide EncodeValue, DecodeValue;
    if DecodeValue(buf, at).Ok? {
      DecodedStands(buf, at);
    }
    if at <= next <= |buf| && StandsFor(buf[at..next], v) {
      if EncodeValue(v) == Ok(buf[at..next]) {
        ValueRoundTrip(buf, at, v);
      } else {
        TrueDecodes(buf, at);
      }
    }
  }

  lemma TrueDecodes(buf: Bytes, at: nat)
    requires at + 2 <= |buf| && buf[at] == TAG_BOOLEAN && buf[at + 1] != 0
    ensures DecodeValue(buf, at) == Ok((Boolean(true), at + 2))
  {
  }

  /** The bytes at `at` are whole but stand for no value: an unknown tag, a NaN, or
      a text that is not UTF-8. */
  predicate Rejected(buf: Bytes, at: nat) {
    at < |buf| &&
    (|| buf[at] > 6
     || (buf[at] == 2 && at + 9 <= |buf| && IsNaN(U64(buf, at + 1)))
     || (buf[at] == 3 && at + 5 <= |buf| && at + 5 + U32(buf, at + 1) <= |buf|
         && !ValidUtf8(buf[at + 5..at + 5 + U32(buf, at + 1)])))
  }

  /** Anything else that does not decode is cut short. */
  lemma DecodeErrors(buf: Bytes, at: nat)
    ensures DecodeValue(buf, at) == Err(InvalidRowEncoding) <==> Rejected(buf, at)
    ensures DecodeValue(buf, at).Err? && !Rejected(buf, at) ==> DecodeValue(buf, at).error == BufferBounds
  {
    hide U32, U64, I64, ValidUtf8, IsNaN;
  }

  /** Where the values `vs` end in an encoded row. */
  function ValuesEnd(vs: seq<Value>): nat {
    if |vs| == 0 then 4 else ValuesEnd(vs[..|vs| - 1]) + ValueSize(vs[|vs| - 1])
  }

  /** After the count, `buf` holds bytes standing for `vs`, one after the other. */
  predicate HoldsValues(buf: Bytes, vs: seq<Value>) {
    if |vs| == 0 then true
    else
      var n := |vs| - 1;
      && HoldsValues(buf, vs[..n]) && ValuesEnd(vs) <= |buf|
      && StandsFor(buf[ValuesEnd(vs[..n])..ValuesEnd(vs)], vs[n])
  }

  lemma {:induction false} UpToHolds(buf: Bytes, count: nat)
    requires DecodeUpTo(buf, count).Ok?
    ensures var (vs, at) := DecodeUpTo(buf, count).value;
      |vs| == count && HoldsValues(buf, vs) && at == ValuesEnd(vs)
  {
    hide StandsFor, DecodeValue, ValueSize;
    if count > 0 {
      UpToHolds(buf, count - 1);
      var (vs, at) := DecodeUpTo(buf, count - 1).value;
      var (v, next) := DecodeValue(buf, at).value;
      DecodesIff(buf, at, v, next);
      StandsForSize(buf[at..next], v);
      assert (vs + [v])[..count - 1] == vs;
    }
  }

  lemma {:induction false} HeldDecodes(buf: Bytes, vs: seq<Value>)
    requires HoldsValues(buf, vs)
    ensures DecodeUpTo(buf, |vs|) == Ok((vs, ValuesEnd(vs)))
  {
    hide StandsFor, DecodeValue, ValueSize;
    if |vs| > 0 {
      var n := |vs| - 1;
      HeldDecodes(buf, vs[..n]);
      DecodesIff(buf, ValuesEnd(vs[..n]), vs[n], ValuesEnd(vs));
      assert vs[..n] + [vs[n]] == vs;
    }
  }

  /** A row decodes if and only if the buffer holds its count and, one after the
      other, bytes standing for its values. */
  lemma RowDecodesIff(buf: Bytes, row: Row)
    ensures DecodeRow(buf) == Ok(row) <==>
      |buf| >= 4 && U32(buf, 0) == |row.values| && HoldsValues(buf, row.values)
  {
    hide U32, HoldsValues, DecodeUpTo;
    if |buf| >= 4 {
      var count := U32(buf, 0);
      if DecodeUpTo(buf, count).Ok? {
        UpToHolds(buf, count);
      }
      if count == |row.values| && HoldsValues(buf, row.values) {
        HeldDecodes(buf, row.values);
      }
    }
  }

  /** A row fails to decode at the first value that does, with its error. */
  lemma {:induction false} UpToErrors(buf: Bytes, count: nat) returns (k: nat)
    requires DecodeUpTo(buf, count).Err?
    ensures k < count && DecodeUpTo(buf, k).Ok?
    ensures HoldsValues(buf, DecodeUpTo(buf, k).value.0)
    ensures var r := DecodeValue(buf, ValuesEnd(DecodeUpTo(buf, k).value.0));
      r.Err? && DecodeUpTo(buf, count) == Err(r.error)
  {
    hide DecodeValue, HoldsValues, ValuesEnd;
    if DecodeUpTo(buf, count - 1).Err? {
      k := UpToErrors(buf, count - 1);
    } else {
      k := count - 1;
      UpToHolds(buf, k);
    }
  }

  // ------------------------------------------------------------------
  // The value types.
  // ------------------------------------------------------------------

  /** Exponent field all ones, fraction not zero (IEEE 754-2008, section 3.4). */
  lemma NaNIff(bits: u64)
    ensures IsNaN(bits) <==> bits / 0x10_0000_0000_0000 % 2048 == 2047 && bits % 0x10_0000_0000_0000 != 0
  {
  }

  /** A Unicode scalar value. */
  predicate IsScalar(c: nat) { c < 0xD800 || 0xE000 <= c < 0x11_0000 }

  function Trail(c: nat): byte { 0x80 + c % 64 }

  /** The UTF-8 form of a scalar value (RFC 3629, section 3). */
  function Utf8Of(c: nat): Bytes
    requires IsScalar(c)
  {
    if c < 0x80 then [c]
    else if c < 0x800 then [0xC0 + c / 64, Trail(c)]
    else if c < 0x1_0000 then [0xE0 + c / 0x1000, Trail(c / 64), Trail(c)]
    else [0xF0 + c / 0x4_0000, Trail(c / 0x1000), Trail(c / 64), Trail(c)]
  }

  function Utf8Concat(cs: seq<nat>): Bytes
    requires forall i | 0 <= i < |cs| :: IsScalar(cs[i])
  {
    if |cs| == 0 then [] else Utf8Of(cs[0]) + Utf8Concat(cs[1..])
  }

  /** The value of one more trailing byte. */
  lemma NextTrail(x: nat, b: int) returns (y: nat)
    requires 0x80 <= b < 0xC0
    ensures y == x * 64 + (b - 0x80) && y / 64 == x && Trail(y) == b
  {
    y := x * 64 + (b - 0x80);
  }

  lemma DivTwice(x: nat)
    ensures x / 64 / 64 == x / 0x1000 && x / 0x1000 / 64 == x / 0x4_0000
  {
  }

  /** The scalar value the front of a byte sequence stands for. */
  lemma FirstScalar(s: Bytes) returns (c: nat)
    requires Utf8Len(s) > 0
    ensures IsScalar(c) && |Utf8Of(c)| == Utf8Len(s) && s[..Utf8Len(s)] == Utf8Of(c)
  {
    var a: int := s[0];
    if a < 0x80 {
      c := a;
      assert s[..1] == [s[0]];
    } else if a < 0xE0 {
      c := NextTrail(a - 0xC0, s[1]);
      assert s[..2] == [s[0], s[1]];
    } else if a < 0xF0 {
      var x := NextTrail(a - 0xE0, s[1]);
      c := NextTrail(x, s[2]);
      DivTwice(c);
      assert s[..3] == [s[0], s[1], s[2]];
    } else {
      var x := NextTrail(a - 0xF0, s[1]);
      var y := NextTrail(x, s[2]);
      c := NextTrail(y, s[3]);
      DivTwice(c);
      DivTwice(y);
      assert s[..4] == [s[0], s[1], s[2], s[3]];
    }
  }

  lemma ScalarLen(c: nat, s: Bytes)
    requires IsScalar(c)
    ensures Utf8Len(Utf8Of(c) + s) == |Utf8Of(c)| > 0
  {
    var u := Utf8Of(c);
    var t := u + s;
    assert forall i | 0 <= i < |u| :: t[i] == u[i];
  }

  /** One scalar value in front keeps a byte sequence well formed. */
  lemma ScalarFirst(c: nat, s: Bytes)
    requires IsScalar(c) && ValidUtf8(s)
    ensures ValidUtf8(Utf8Of(c) + s)
  {
    hide Utf8Of, Utf8Len;
    ScalarLen(c, s);
    assert (Utf8Of(c) + s)[|Utf8Of(c)|..] == s;
  }

  lemma {:induction false} Utf8Decodes(s: Bytes) returns (cs: seq<nat>)
    requires ValidUtf8(s)
    ensures (forall i | 0 <= i < |cs| :: IsScalar(cs[i])) && Utf8Concat(cs) == s
    decreases |s|
  {
    hide Utf8Len, Utf8Of;
    if |s| == 0 {
      cs := [];
    } else {
      var c := FirstScalar(s);
      var rest := Utf8Decodes(s[|Utf8Of(c)|..]);
      cs := [c] + rest;
      assert cs[1..] == rest;
    }
  }

  lemma {:induction false} Utf8Encodes(cs: seq<nat>)
    requires forall i | 0 <= i < |cs| :: IsScalar(cs[i])
    ensures ValidUtf8(Utf8Concat(cs))
  {
    hide Utf8Of;
    if |cs| > 0 {
      Utf8Encodes(cs[1..]);
      ScalarFirst(cs[0], Utf8Concat(cs[1..]));
    }
  }

  /** TEXT is exactly the concatenations of UTF-8 forms of scalar values. */
  lemma ValidUtf8Iff(s: Bytes)
    ensures ValidUtf8(s) <==>
      exists cs: seq<nat> :: (forall i | 0 <= i < |cs| :: IsScalar(cs[i])) && Utf8Concat(cs) == s
  {
    hide ValidUtf8, Utf8Concat, IsScalar;
    if ValidUtf8(s) {
      var cs := Utf8Decodes(s);
    }
    if cs: seq<nat> :| (forall i | 0 <= i < |cs| :: IsScalar(cs[i])) && Utf8Concat(cs) == s {
      Utf8Encodes(cs);
    }
  }

  // ------------------------------------------------------------------
  // The format, byte by byte.
  // ------------------------------------------------------------------

  lemma {:induction false} ValuesAppend(vs: seq<Value>, v: Value, before: Bytes, last: Bytes)
    requires EncodeValues(vs) == Ok(before) && EncodeValue(v) == Ok(last)
    ensures EncodeValues(vs + [v]) == Ok(before + last)
  {
    hide EncodeValue;
    assert (vs + [v])[..|vs + [v]| - 1] == vs;
  }

  lemma BEStep(v: nat, n: nat, front: Bytes)
    requires n > 0 && ToBE(v / 256, n - 1) == front
    ensures ToBE(v, n) == front + [v % 256]
  {
  }

  /** A number below 65536 in `n` bytes. */
  lemma {:induction false} BESmall(v: nat, n: nat)
    requires v < 0x1_0000 && n >= 2
    ensures ToBE(v, n) == Zeros(n - 2) + [v / 256, v % 256]
    decreases n
  {
    hide ToBE;
    BEZero(n - 2);
    BEStep(v / 256, n - 1, Zeros(n - 2));
    BEStep(v, n, Zeros(n - 2) + [v / 256]);
    assert Zeros(n - 2) + [v / 256] + [v % 256] == Zeros(n - 2) + [v / 256, v % 256];
  }

  /** The length, value and bit-pattern fields of small values. */
  lemma SmallFields()
    ensures ToBE(1, 4) == [0, 0, 0, 1] && ToBE(2, 4) == [0, 0, 0, 2]
    ensures ToBE(0x0102, 8) == [0, 0, 0, 0, 0, 0, 1, 2] && I64Bytes(0x0102) == [0, 0, 0, 0, 0, 0, 1, 2]
  {
    hide ToBE;
    BESmall(1, 4);
    BESmall(2, 4);
    BESmall(0x0102, 8);
    assert Zeros(2) == [0, 0] && Zeros(6) == [0, 0, 0, 0, 0, 0];
  }

  /** Minus two, in two's complement. */
  lemma MinusTwo()
    ensures I64Bytes(-2) == [0xFF, 0xFF, 0xFF, 0xFF, 0xFF, 0xFF, 0xFF, 0xFE]
  {
  }

  /** A value of every type, as it is stored, and a row of two. */
  lemma RowFormat()
    ensures EncodeValue(Null) == Ok([0]) && EncodeValue(Boolean(true)) == Ok([5, 1])
    ensures EncodeValue(Integer(-2)) == Ok([1, 0xFF, 0xFF, 0xFF, 0xFF, 0xFF, 0xFF, 0xFF, 0xFE])
    ensures EncodeValue(Real(0x0102)) == Ok([2, 0, 0, 0, 0, 0, 0, 1, 2])
    ensures EncodeValue(Text([])) == Ok([3, 0, 0, 0, 0])
    ensures EncodeValue(Blob([7])) == Ok([4, 0, 0, 0, 1, 7])
    ensures EncodeValue(Datetime(0x0102)) == Ok([6, 0, 0, 0, 0, 0, 0, 1, 2])
    ensures EncodeRow(Row([Null, Boolean(true)])) == Ok([0, 0, 0, 2, 0, 5, 1])
  {
    SmallFields();
    MinusTwo();
    BEZero(4);
    hide ToBE, I64Bytes;
    assert [TAG_INTEGER] + I64Bytes(-2) == [1, 0xFF, 0xFF, 0xFF, 0xFF, 0xFF, 0xFF, 0xFF, 0xFE];
    assert [TAG_REAL] + ToBE(0x0102, 8) == [2, 0, 0, 0, 0, 0, 0, 1, 2];
    assert [TAG_TEXT] + (ToBE(0, 4) + []) == [3, 0, 0, 0, 0];
    assert [TAG_BLOB] + (ToBE(1, 4) + [7]) == [4, 0, 0, 0, 1, 7];
    assert [TAG_DATETIME] + I64Bytes(0x0102) == [6, 0, 0, 0, 0, 0, 0, 1, 2];
    TwoValues();
    assert ToBE(2, 4) + [0, 5, 1] == [0, 0, 0, 2, 0, 5, 1];
  }

  lemma OneByteValues()
    ensures EncodeValues([]) == Ok([]) && EncodeValue(Null) == Ok([0]) && EncodeValue(Boolean(true)) == Ok([5, 1])
  {
  }

  lemma TwoValues()
    ensures EncodeValues([Null, Boolean(true)]) == Ok([0, 5, 1])
  {
    hide EncodeValues, EncodeValue;
    OneByteValues();
    var none: seq<Value>, empty: Bytes, zero: Bytes, one: Bytes := [], [], [0], [5, 1];
    ValuesAppend(none, Null, empty, zero);
    assert none + [Null] == [Null] && empty + zero == zero;
    ValuesAppend([Null], Boolean(true), zero, one);
    assert [Null] + [Boolean(true)] == [Null, Boolean(true)] && zero + one == [0, 5, 1];
  }
}
