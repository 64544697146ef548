/** The byte-level part of nanopb: base-128 varints, zigzag and tags
    (pb_encode.c:494-557, pb_decode.c:173-275, 1118-1130). Bytes are integers in
    0..255; uint64_t values are integers below 2^64. */
module PbWire {
  import opened Wrappers
  import opened Bytes

  const TWO32 := 0x1_0000_0000
  const TWO63 := 0x8000_0000_0000_0000
  const TWO64 := 0x1_0000_0000_0000_0000

  /** The bytes pb_encode_varint writes for a value. */
  function Varint(v: nat): (r: seq<byte>)
    ensures 1 <= |r|
  {
    if v < 128 then [v] else [128 + v % 128] + Varint(v / 128)
  }

  /** The number of bytes up to and including the first one without the
      continuation bit. */
  function VarintLen(s: seq<byte>): (r: Option<nat>)
    ensures r.Some? ==> 1 <= r.value <= |s|
  {
    if s == [] then None
    else if s[0] < 128 then Some(1)
    else match VarintLen(s[1..]) case None => None case Some(n) => Some(n + 1)
  }

  /** The number that a group of varint bytes stands for, low group first. */
  function GroupValue(s: seq<byte>): nat {
    if s == [] then 0 else s[0] % 128 + 128 * GroupValue(s[1..])
  }

  /** pb_decode_varint: at most ten bytes, value truncated to 64 bits. */
  function DecodeVarint(s: seq<byte>): (r: Option<(nat, seq<byte>)>)
    ensures r.Some? ==> r.value.0 < TWO64 && |r.value.1| < |s|
  {
    match VarintLen(s)
    case None => None
    case Some(n) => if n > 10 then None else Some((GroupValue(s[..n]) % TWO64, s[n..]))
  }

  /** pb_decode_varint32: at most five bytes, value truncated to 32 bits. */
  function DecodeVarint32(s: seq<byte>): (r: Option<(nat, seq<byte>)>)
    ensures r.Some? ==> r.value.0 < TWO32 && |r.value.1| < |s|
  {
    match VarintLen(s)
    case None => None
    case Some(n) => if n > 5 then None else Some((GroupValue(s[..n]) % TWO32, s[n..]))
  }

  function Pow128(n: nat): (r: nat)
    ensures r >= 1
  {
    if n == 0 then 1 else 128 * Pow128(n - 1)
  }

  /** The shortest number of base-128 groups for a value. */
  lemma {:induction false} VarintMinimal(v: nat, n: nat)
    requires n >= 1
    ensures |Varint(v)| <= n <==> v < Pow128(n)
  {
    if v >= 128 && n > 1 {
      VarintMinimal(v / 128, n - 1);
      assert Pow128(n) == 128 * Pow128(n - 1);
    } else if v < 128 {
      Pow128AtLeast(n);
    }
  }

  lemma {:induction false} Pow128AtLeast(n: nat)
    requires n >= 1
    ensures Pow128(n) >= 128
  {
    if n > 1 { Pow128AtLeast(n - 1); }
  }

  lemma Pow128Table()
    ensures Pow128(5) == 0x8_0000_0000
    ensures Pow128(9) == TWO63
    ensures Pow128(10) == 128 * TWO63
  {
    assert Pow128(1) == 128;
    assert Pow128(2) == 16384;
    assert Pow128(3) == 0x20_0000;
    assert Pow128(4) == 0x1000_0000;
    assert Pow128(5) == 0x8_0000_0000;
    assert Pow128(6) == 0x400_0000_0000;
    assert Pow128(7) == 0x2_0000_0000_0000;
    assert Pow128(8) == 0x100_0000_0000_0000;
    assert Pow128(9) == 0x8000_0000_0000_0000;
  }

  /** A written varint is read back whole, whatever follows it. */
  lemma {:induction false} VarintParses(v: nat, tail: seq<byte>)
    ensures VarintLen(Varint(v) + tail) == Some(|Varint(v)|)
    ensures GroupValue(Varint(v)) == v
  {
    var s := Varint(v) + tail;
    if v < 128 {
      assert s[0] == v;
      assert Varint(v)[1..] == [];
    } else {
      VarintParses(v / 128, tail);
      assert s[1..] == Varint(v / 128) + tail;
      assert Varint(v)[1..] == Varint(v / 128);
    }
  }

  /** decode(encode(v)) == v for every uint64_t, with the rest of the stream
      untouched and never more than buffer[10] holds. */
  lemma VarintRoundTrip(v: nat, tail: seq<byte>)
    requires v < TWO64
    ensures |Varint(v)| <= 10
    ensures DecodeVarint(Varint(v) + tail) == Some((v, tail))
  {
    VarintMinimal(v, 10);
    Pow128Table();
    VarintParses(v, tail);
    assert (Varint(v) + tail)[..|Varint(v)|] == Varint(v);
    assert (Varint(v) + tail)[|Varint(v)|..] == tail;
  }

  lemma Varint32RoundTrip(v: nat, tail: seq<byte>)
    requires v < TWO32
    ensures |Varint(v)| <= 5
    ensures DecodeVarint32(Varint(v) + tail) == Some((v, tail))
  {
    VarintMinimal(v, 5);
    Pow128Table();
    VarintParses(v, tail);
    assert (Varint(v) + tail)[..|Varint(v)|] == Varint(v);
    assert (Varint(v) + tail)[|Varint(v)|..] == tail;
  }

  /** The two decoders agree: where the 32-bit one succeeds, the 64-bit one
      succeeds on the same bytes, consumes as many, and gives the same value
      modulo 2^32. */
  lemma Varint32Agrees(s: seq<byte>)
    requires DecodeVarint32(s).Some?
    ensures DecodeVarint(s).Some?
    ensures DecodeVarint(s).value.1 == DecodeVarint32(s).value.1
    ensures DecodeVarint(s).value.0 % TWO32 == DecodeVarint32(s).value.0
  {
    var n := VarintLen(s).value;
    GroupValueBound(s[..n]);
    GroupBoundMonotone(n, 5);
    Pow128Table();
  }

  lemma {:induction false} GroupValueBound(s: seq<byte>)
    ensures GroupValue(s) < Pow128(|s|)
  {
    if s != [] { GroupValueBound(s[1..]); }
  }

  lemma {:induction false} GroupBoundMonotone(m: nat, n: nat)
    requires m <= n
    ensures Pow128(m) <= Pow128(n)
  {
    if m < n { GroupBoundMonotone(m, n - 1); }
  }

  // ----- zigzag: sint32 and sint64 -----

  /** pb_encode_svarint's mapping of int64_t to uint64_t. */
  function ZigZag(v: int): nat
    requires -TWO63 <= v < TWO63
  {
    if v < 0 then TWO64 - 1 - (2 * v + TWO64) else 2 * v
  }

  /** pb_decode_svarint's inverse mapping. */
  function UnZigZag(u: nat): int
    requires u < TWO64
  {
    if u % 2 == 1 then -1 - u / 2 else u / 2
  }

  /** The mapping is a bijection between int64_t and uint64_t. */
  lemma ZigZagBijection(v: int, u: nat)
    requires -TWO63 <= v < TWO63 && u < TWO64
    ensures 0 <= ZigZag(v) < TWO64 && UnZigZag(ZigZag(v)) == v
    ensures -TWO63 <= UnZigZag(u) < TWO63 && ZigZag(UnZigZag(u)) == u
  {
  }

  // ----- fixed-width values, little endian -----

  function LittleEndian(v: nat, n: nat): (r: seq<byte>)
    ensures |r| == n
  {
    if n == 0 then [] else [v % 256] + LittleEndian(v / 256, n - 1)
  }

  function FromLittleEndian(s: seq<byte>): nat {
    if s == [] then 0 else s[0] + 256 * FromLittleEndian(s[1..])
  }

  lemma {:induction false} LittleEndianRoundTrip(v: nat, n: nat)
    requires v < Pow256(n)
    ensures FromLittleEndian(LittleEndian(v, n)) == v
  {
    if n > 0 {
      assert LittleEndian(v, n)[1..] == LittleEndian(v / 256, n - 1);
      LittleEndianRoundTrip(v / 256, n - 1);
    }
  }

  lemma Pow256Table()
    ensures Pow256(4) == TWO32 && Pow256(8) == TWO64
  {
    assert Pow256(1) == 256 && Pow256(2) == 0x1_0000;
    assert Pow256(3) == 0x100_0000 && Pow256(4) == 0x1_0000_0000;
    assert Pow256(5) == 0x100_0000_0000 && Pow256(6) == 0x1_0000_0000_0000;
    assert Pow256(7) == 0x100_0000_0000_0000;
  }

  /** A fixed32 (n == 4) or fixed64 (n == 8) value is read back whole. */
  lemma FixedRoundTrip(v: nat, n: nat, tail: seq<byte>)
    requires v < Pow256(n)
    ensures (LittleEndian(v, n) + tail)[n..] == tail
    ensures FromLittleEndian((LittleEndian(v, n) + tail)[..n]) == v
  {
    LittleEndianRoundTrip(v, n);
    assert (LittleEndian(v, n) + tail)[..n] == LittleEndian(v, n);
  }

  // ----- tags -----

  const WT_VARINT: nat := 0
  const WT_64BIT: nat := 1
  const WT_STRING: nat := 2
  const WT_32BIT: nat := 5

  function Tag(wireType: nat, tag: nat): seq<byte> {
    Varint(8 * tag + wireType)
  }

  datatype TagResult = TagEof(rest: seq<byte>) | TagError | TagOk(wireType: nat, tag: nat, rest: seq<byte>)

  /** pb_decode_tag. A varint32 that fails once the stream is empty is reported
      as the end of the message, and so is a zero. */
  function DecodeTag(s: seq<byte>): (r: TagResult)
    ensures r.TagOk? ==> r.wireType < 8 && |r.rest| < |s|
    ensures r.TagEof? ==> |r.rest| <= |s|
  {
    match DecodeVarint32(s)
    case None => if |s| <= 5 then TagEof([]) else TagError
    case Some((v, rest)) => if v == 0 then TagEof(rest) else TagOk(v % 8, v / 8, rest)
  }

  /** A tag written for a field number of the standard's range is read back. */
  lemma TagRoundTrip(wireType: nat, tag: nat, tail: seq<byte>)
    requires wireType < 8 && 1 <= tag < 0x2000_0000
    ensures DecodeTag(Tag(wireType, tag) + tail) == TagOk(wireType, tag, tail)
  {
    Varint32RoundTrip(8 * tag + wireType, tail);
  }

  /** What follows a value that was read does not change how it was read. */
  lemma {:induction false} VarintLenLocal(s: seq<byte>, tail: seq<byte>)
    requires VarintLen(s).Some?
    ensures VarintLen(s + tail) == VarintLen(s)
  {
    if s[0] >= 128 {
      VarintLenLocal(s[1..], tail);
      assert (s + tail)[1..] == s[1..] + tail;
    }
  }

  lemma Varint32Local(s: seq<byte>, tail: seq<byte>)
    requires DecodeVarint32(s).Some?
    ensures DecodeVarint32(s + tail) == Some((DecodeVarint32(s).value.0, DecodeVarint32(s).value.1 + tail))
  {
    VarintLenLocal(s, tail);
    var n := VarintLen(s).value;
    assert (s + tail)[..n] == s[..n] && (s + tail)[n..] == s[n..] + tail;
  }

  lemma VarintLocal(s: seq<byte>, tail: seq<byte>)
    requires DecodeVarint(s).Some?
    ensures DecodeVarint(s + tail) == Some((DecodeVarint(s).value.0, DecodeVarint(s).value.1 + tail))
  {
    VarintLenLocal(s, tail);
    var n := VarintLen(s).value;
    assert (s + tail)[..n] == s[..n] && (s + tail)[n..] == s[n..] + tail;
  }
}
