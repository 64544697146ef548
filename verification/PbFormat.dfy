/** The wire format by itself: what each kind of field looks like on the wire and
    what a record stores, in the numbers of the format's documentation and not in
    those of the codec (pb.h:312-315, pb_encode.c:494-660, pb_decode.c:173-330,
    1118-1330). Reader and writer agree elsewhere; here they agree with the format. */
module PbFormat {
  import opened Wrappers
  import opened Bytes
  import opened PbWire
  import opened PbModel
  import opened PbMerge
  import opened PbConcat
  import opened PbRoundTrip

  // ----- varints -----

  /** One varint, of any length: every byte but the last has its top bit set. */
  predicate IsVarint(s: seq<byte>) {
    s != [] && s[|s|-1] < 128 && forall k :: 0 <= k < |s| - 1 ==> s[k] >= 128
  }

  /** Its value: byte k counts 2^(7k). */
  function Total(s: seq<byte>): nat {
    if s == [] then 0 else Total(s[..|s|-1]) + (s[|s|-1] % 128) * Pow128(|s| - 1)
  }

  lemma {:induction false} TotalFromFront(s: seq<byte>)
    requires s != []
    ensures Total(s) == s[0] % 128 + 128 * Total(s[1..])
  {
    if |s| == 1 {
      assert Total(s[..0]) == 0 && Pow128(0) == 1 && s[1..] == [];
    } else {
      var n := |s| - 1;
      TotalFromFront(s[..n]);
      assert s[..n][1..] == s[1..][..n-1] && s[1..][n-1] == s[n];
      Distributes(s[0] % 128, Total(s[1..][..n-1]), s[n] % 128, Pow128(n - 1));
      assert Pow128(n) == 128 * Pow128(n - 1);
    }
  }

  lemma Distributes(a: int, b: int, c: int, p: int)
    ensures a + 128 * b + c * (128 * p) == a + 128 * (b + c * p)
  {
  }

  lemma {:induction false} GroupsAreTotal(s: seq<byte>)
    ensures GroupValue(s) == Total(s)
  {
    if s != [] {
      GroupsAreTotal(s[1..]);
      TotalFromFront(s);
    }
  }

  lemma {:induction false} LenOfVarint(s: seq<byte>, tail: seq<byte>)
    requires IsVarint(s)
    ensures VarintLen(s + tail) == Some(|s|)
  {
    if |s| > 1 {
      assert (s + tail)[1..] == s[1..] + tail;
      LenOfVarint(s[1..], tail);
    }
  }

  /** Both decoders read every varint, minimal or not: one of more than ten or five
      bytes is refused, and any other one's value is cut to the decoder's width. */
  lemma VarintReads(s: seq<byte>, tail: seq<byte>)
    requires IsVarint(s)
    ensures DecodeVarint(s + tail)
         == if |s| <= 10 then Some((Total(s) % 0x1_0000_0000_0000_0000, tail)) else None
    ensures DecodeVarint32(s + tail) == if |s| <= 5 then Some((Total(s) % 0x1_0000_0000, tail)) else None
  {
    LenOfVarint(s, tail);
    GroupsAreTotal(s);
    assert (s + tail)[..|s|] == s && (s + tail)[|s|..] == tail;
  }

  /** And one that breaks off is refused. */
  lemma {:induction false} BrokenVarint(s: seq<byte>)
    requires forall k :: 0 <= k < |s| ==> s[k] >= 128
    ensures VarintLen(s).None? && DecodeVarint(s).None? && DecodeVarint32(s).None?
  {
    if s != [] { BrokenVarint(s[1..]); }
  }

  lemma OneMoreByte(b: byte, s: seq<byte>)
    requires b >= 128 && IsVarint(s)
    ensures IsVarint([b] + s) && Total([b] + s) == b - 128 + 128 * Total(s)
  {
    TotalFromFront([b] + s);
    assert ([b] + s)[1..] == s;
    hide Total;
  }

  /** The written varint is one, has the value, */
  lemma {:induction false} VarintIsOne(v: nat)
    ensures IsVarint(Varint(v)) && Total(Varint(v)) == v
  {
    if v >= 128 {
      VarintIsOne(v / 128);
      OneMoreByte(128 + v % 128, Varint(v / 128));
    } else {
      assert Varint(v)[..0] == [] && Pow128(0) == 1;
    }
  }

  /** and no shorter one has. */
  lemma {:induction false} VarintShortest(v: nat, s: seq<byte>)
    requires IsVarint(s) && Total(s) == v
    ensures |Varint(v)| <= |s|
    decreases |s|
  {
    TotalFromFront(s);
    if |s| == 1 {
      assert s[1..] == [];
    } else if v >= 128 {
      VarintShortest(v / 128, s[1..]);
    }
  }

  // ----- unknown fields -----

  /** A field number of the format's range that is not declared. */
  predicate Undeclared(fields: seq<Field>, t: nat) {
    1 <= t < 0x2000_0000 && forall i :: 0 <= i < |fields| ==> fields[i].tag != t
  }

  lemma {:induction false} NotFound(fields: seq<Field>, t: nat)
    requires forall i :: 0 <= i < |fields| ==> fields[i].tag != t
    ensures Find(fields, t).None?
  {
    if fields != [] { NotFound(fields[1..], t); }
  }

  lemma UndeclaredRecord(fields: seq<Field>, t: nat, wireType: nat, s: seq<byte>, p: Progress)
    requires Undeclared(fields, t) && wireType < 8
    ensures DecLoop(fields, Varint(8 * t + wireType) + s, p)
         == match SkipField(wireType, s) case None => None case Some(rest) => DecLoop(fields, rest, p)
  {
    NotFound(fields, t);
    TagRoundTrip(wireType, t, s);
  }

  /** Undeclared fields of the four wire types are skipped: a varint of any length, */
  lemma SkipsVarint(fields: seq<Field>, t: nat, x: seq<byte>, tail: seq<byte>, p: Progress)
    requires Undeclared(fields, t) && IsVarint(x)
    ensures DecLoop(fields, Varint(8 * t) + x + tail, p) == DecLoop(fields, tail, p)
  {
    hide DecLoop;
    assert Varint(8 * t) + x + tail == Varint(8 * t + 0) + (x + tail);
    UndeclaredRecord(fields, t, 0, x + tail, p);
    LenOfVarint(x, tail);
    assert (x + tail)[|x|..] == tail;
  }

  /** eight bytes, */
  lemma Skips64Bit(fields: seq<Field>, t: nat, x: seq<byte>, tail: seq<byte>, p: Progress)
    requires Undeclared(fields, t) && |x| == 8
    ensures DecLoop(fields, Varint(8 * t + 1) + x + tail, p) == DecLoop(fields, tail, p)
  {
    hide DecLoop;
    assert Varint(8 * t + 1) + x + tail == Varint(8 * t + 1) + (x + tail);
    UndeclaredRecord(fields, t, 1, x + tail, p);
    assert (x + tail)[8..] == tail;
  }

  lemma Regroup(a: seq<byte>, b: seq<byte>, c: seq<byte>, d: seq<byte>)
    ensures a + b + c + d == a + (b + (c + d))
  {
  }

  lemma StringSkipped(l: seq<byte>, x: seq<byte>, tail: seq<byte>)
    requires IsVarint(l) && |l| <= 5 && Total(l) % 0x1_0000_0000 == |x|
    ensures SkipField(2, l + (x + tail)) == Some(tail)
  {
    hide DecDelimited, Total, IsVarint;
    DelimitedReads(l, x, tail);
  }

  /** a length, in a varint of at most five bytes, and that many bytes, */
  lemma SkipsString(fields: seq<Field>, t: nat, l: seq<byte>, x: seq<byte>, tail: seq<byte>, p: Progress)
    requires Undeclared(fields, t) && IsVarint(l) && |l| <= 5 && Total(l) % 0x1_0000_0000 == |x|
    ensures DecLoop(fields, Varint(8 * t + 2) + l + x + tail, p) == DecLoop(fields, tail, p)
  {
    hide DecLoop, SkipField, Total, Varint, IsVarint, Undeclared;
    Regroup(Varint(8 * t + 2), l, x, tail);
    StringSkipped(l, x, tail);
    UndeclaredRecord(fields, t, 2, l + (x + tail), p);
  }

  /** and four bytes. */
  lemma Skips32Bit(fields: seq<Field>, t: nat, x: seq<byte>, tail: seq<byte>, p: Progress)
    requires Undeclared(fields, t) && |x| == 4
    ensures DecLoop(fields, Varint(8 * t + 5) + x + tail, p) == DecLoop(fields, tail, p)
  {
    hide DecLoop;
    assert Varint(8 * t + 5) + x + tail == Varint(8 * t + 5) + (x + tail);
    UndeclaredRecord(fields, t, 5, x + tail, p);
    assert (x + tail)[4..] == tail;
  }

  /** The other wire types, and fields that break off, are errors. */
  lemma SkipsNothingElse(fields: seq<Field>, t: nat, wireType: nat, s: seq<byte>, p: Progress)
    requires Undeclared(fields, t) && wireType < 8
    requires match wireType
             case 0 => forall k :: 0 <= k < |s| ==> s[k] >= 128
             case 1 => |s| < 8
             case 2 => (forall k :: 0 <= k < |s| ==> s[k] >= 128)
                       || exists l, x :: s == l + x && IsVarint(l) && (|l| > 5 || Total(l) % 0x1_0000_0000 > |x|)
             case 5 => |s| < 4
             case _ => true
    ensures DecLoop(fields, Varint(8 * t + wireType) + s, p).None?
  {
    hide DecLoop;
    UndeclaredRecord(fields, t, wireType, s, p);
    if wireType in {0, 2} && forall k :: 0 <= k < |s| ==> s[k] >= 128 {
      BrokenVarint(s);
    } else if wireType == 2 {
      var l, x :| s == l + x && IsVarint(l) && (|l| > 5 || Total(l) % 0x1_0000_0000 > |x|);
      VarintReads(l, x);
    }
  }

  /** A zero in the place of a tag ends the message. */
  lemma ZeroEnds(fields: seq<Field>, x: seq<byte>, tail: seq<byte>, p: Progress)
    requires IsVarint(x) && |x| <= 5 && Total(x) % 0x1_0000_0000 == 0
    ensures DecLoop(fields, x + tail, p) == Some((p, tail))
  {
    VarintReads(x, tail);
    hide Total, IsVarint;
  }

  /** So these are unknown fields, wherever one may stand in a message. */
  lemma AreUnknown(fields: seq<Field>, t: nat, l: seq<byte>, x: seq<byte>)
    requires Undeclared(fields, t)
    ensures IsVarint(x) ==> Unknown(fields, Varint(8 * t) + x)
    ensures |x| == 8 ==> Unknown(fields, Varint(8 * t + 1) + x)
    ensures IsVarint(l) && |l| <= 5 && Total(l) % 0x1_0000_0000 == |x| ==> Unknown(fields, Varint(8 * t + 2) + (l + x))
    ensures |x| == 4 ==> Unknown(fields, Varint(8 * t + 5) + x)
  {
    hide Unknown, Undeclared, Total, IsVarint, VarintLen;
    assert x + [] == x && Varint(8 * t + 0) == Varint(8 * t);
    if IsVarint(x) {
      LenOfVarint(x, []);
      IsUnknown(fields, t, 0, x);
    }
    if |x| == 8 { IsUnknown(fields, t, 1, x); }
    if IsVarint(l) && |l| <= 5 && Total(l) % 0x1_0000_0000 == |x| {
      StringSkipped(l, x, []);
      IsUnknown(fields, t, 2, l + x);
    }
    if |x| == 4 { IsUnknown(fields, t, 5, x); }
  }

  lemma IsUnknown(fields: seq<Field>, t: nat, wireType: nat, s: seq<byte>)
    requires Undeclared(fields, t) && wireType < 8 && SkipField(wireType, s) == Some([])
    ensures Unknown(fields, Varint(8 * t + wireType) + s)
  {
    hide SkipField;
    NotFound(fields, t);
    TagRoundTrip(wireType, t, s);
  }

  lemma DelimitedReads(l: seq<byte>, x: seq<byte>, tail: seq<byte>)
    requires IsVarint(l) && |l| <= 5 && Total(l) % 0x1_0000_0000 == |x|
    ensures DecDelimited(l + (x + tail)) == Some((x, tail))
  {
    VarintReads(l, x + tail);
    assert (x + tail)[..|x|] == x && (x + tail)[|x|..] == tail;
  }

  // ----- what a value on the wire is -----

  /** What bits stand for in two's complement, half being the top bit's weight. */
  function TwosComplement(u: nat, half: nat): int { if u < half then u else u - 2 * half }

  /** The halves of the ranges of one, two, four and eight bytes. */
  const HALVES := [0x80, 0x8000, 0x8000_0000, 0x8000_0000_0000_0000]

  lemma SignedExactly(v: int, k: nat)
    requires k < 4
    ensures var h := HALVES[k];
            && (Signed(v, 2 * h) == v <==> -h <= v < h)
            && (v >= 0 ==> Signed(v, 2 * h) == TwosComplement(v % (2 * h), h))
  {
    if k == 0 {
      SignedByte(v);
    } else if k == 1 {
      SignedTwo(v);
    } else if k == 2 {
      SignedFour(v);
    } else {
      SignedEight(v);
    }
  }

  lemma SignedByte(v: int)
    ensures Signed(v, 0x100) == v <==> -0x80 <= v < 0x80
  {
  }

  lemma SignedTwo(v: int)
    ensures Signed(v, 0x1_0000) == v <==> -0x8000 <= v < 0x8000
  {
  }

  lemma SignedFour(v: int)
    ensures Signed(v, 0x1_0000_0000) == v <==> -0x8000_0000 <= v < 0x8000_0000
  {
  }

  lemma SignedEight(v: int)
    ensures Signed(v, 0x1_0000_0000_0000_0000) == v <==> -0x8000_0000_0000_0000 <= v < 0x8000_0000_0000_0000
  {
  }

  lemma NarrowInt(dataSize: nat, u: nat)
    requires u < 0x1_0000_0000_0000_0000
    ensures var n := TwosComplement(u % 0x1_0000_0000, 0x8000_0000);
            Narrow(LVarint, dataSize, u) ==
            match dataSize
            case 8 => Some(TwosComplement(u, 0x8000_0000_0000_0000))
            case 4 => Some(n)
            case 2 => if -0x8000 <= n < 0x8000 then Some(n) else None
            case 1 => if -0x80 <= n < 0x80 then Some(n) else None
            case _ => None
  {
    hide Signed;
    var n := TwosComplement(u % 0x1_0000_0000, 0x8000_0000);
    SignedExactly(u, 2);
    SignedExactly(u, 3);
    SignedExactly(n, 0);
    SignedExactly(n, 1);
    SignedExactly(n, 2);
    SignedExactly(TwosComplement(u, 0x8000_0000_0000_0000), 3);
  }

  lemma NarrowSint(dataSize: nat, u: nat)
    requires u < 0x1_0000_0000_0000_0000
    ensures var n := if u % 2 == 0 then u / 2 else -((u + 1) / 2);
            Narrow(LSVarint, dataSize, u) ==
            match dataSize
            case 8 => Some(n)
            case 4 => if -0x8000_0000 <= n < 0x8000_0000 then Some(n) else None
            case 2 => if -0x8000 <= n < 0x8000 then Some(n) else None
            case 1 => if -0x80 <= n < 0x80 then Some(n) else None
            case _ => None
  {
    var n := UnZigZag(u);
    assert n == if u % 2 == 0 then u / 2 else -((u + 1) / 2);
    hide UnZigZag;
    SignedExactly(n, 0);
    SignedExactly(n, 1);
    SignedExactly(n, 2);
    SignedExactly(n, 3);
    hide Signed;
  }

  /** int32 and int64, in a member of one, two, four or eight bytes: 64 bits are
      taken whole, else the low 32 bits; a number that the member cannot hold is
      refused. */
  lemma IntReads(f: Field, x: seq<byte>, tail: seq<byte>, prior: Value)
    requires f.ltype == LVarint && IsVarint(x) && |x| <= 10
    ensures var u := Total(x) % 0x1_0000_0000_0000_0000;
            var n := TwosComplement(u % 0x1_0000_0000, 0x8000_0000);
            DecValue(f, x + tail, prior) ==
            match f.dataSize
            case 8 => Some((Num(TwosComplement(u, 0x8000_0000_0000_0000)), tail))
            case 4 => Some((Num(n), tail))
            case 2 => if -0x8000 <= n < 0x8000 then Some((Num(n), tail)) else None
            case 1 => if -0x80 <= n < 0x80 then Some((Num(n), tail)) else None
            case _ => None
  {
    VarintReads(x, tail);
    NarrowInt(f.dataSize, Total(x) % 0x1_0000_0000_0000_0000);
    hide Narrow, Total;
  }

  /** uint32 and uint64. */
  lemma UintReads(f: Field, x: seq<byte>, tail: seq<byte>, prior: Value)
    requires f.ltype == LUVarint && IsVarint(x) && |x| <= 10
    ensures var u := Total(x) % 0x1_0000_0000_0000_0000;
            DecValue(f, x + tail, prior) ==
            match f.dataSize
            case 8 => Some((Num(u), tail))
            case 4 => if u < 0x1_0000_0000 then Some((Num(u), tail)) else None
            case 2 => if u < 0x1_0000 then Some((Num(u), tail)) else None
            case 1 => if u < 0x100 then Some((Num(u), tail)) else None
            case _ => None
  {
    VarintReads(x, tail);
  }

  /** sint32 and sint64: even numbers are not negative, odd ones are. */
  lemma SintReads(f: Field, x: seq<byte>, tail: seq<byte>, prior: Value)
    requires f.ltype == LSVarint && IsVarint(x) && |x| <= 10
    ensures var u := Total(x) % 0x1_0000_0000_0000_0000;
            var n := if u % 2 == 0 then u / 2 else -((u + 1) / 2);
            DecValue(f, x + tail, prior) ==
            match f.dataSize
            case 8 => Some((Num(n), tail))
            case 4 => if -0x8000_0000 <= n < 0x8000_0000 then Some((Num(n), tail)) else None
            case 2 => if -0x8000 <= n < 0x8000 then Some((Num(n), tail)) else None
            case 1 => if -0x80 <= n < 0x80 then Some((Num(n), tail)) else None
            case _ => None
  {
    VarintReads(x, tail);
    NarrowSint(f.dataSize, Total(x) % 0x1_0000_0000_0000_0000);
    hide Narrow, Total;
  }

  function Word(x: seq<byte>): nat
    requires |x| == 4
  {
    (x[0] as int) + 0x100 * (x[1] as int) + 0x1_0000 * (x[2] as int) + 0x100_0000 * (x[3] as int)
  }

  /** fixed32 and fixed64: the low byte first. */
  lemma FixedReads(f: Field, x: seq<byte>, tail: seq<byte>, prior: Value)
    ensures f.ltype == LFixed32 && |x| == 4 ==> DecValue(f, x + tail, prior) == Some((Num(Word(x)), tail))
    ensures f.ltype == LFixed64 && |x| == 8 ==>
              DecValue(f, x + tail, prior) == Some((Num(Word(x[..4]) + 0x1_0000_0000 * Word(x[4..])), tail))
  {
    if f.ltype == LFixed32 && |x| == 4 {
      assert (x + tail)[..4] == x && (x + tail)[4..] == tail;
      FourBytes(x);
    } else if f.ltype == LFixed64 && |x| == 8 {
      assert (x + tail)[..8] == x && (x + tail)[8..] == tail;
      FourBytes(x[..4]);
      FourBytes(x[4..]);
      FourAndFour(x);
    }
  }

  lemma FourBytes(x: seq<byte>)
    requires |x| == 4
    ensures FromLittleEndian(x) == Word(x)
  {
    assert x[1..][1..] == x[2..] && x[2..][1..] == x[3..] && x[3..][1..] == [];
    assert FromLittleEndian(x[3..]) == x[3] && FromLittleEndian(x[2..]) == x[2] + 256 * FromLittleEndian(x[3..]);
    assert FromLittleEndian(x[1..]) == x[1] + 256 * FromLittleEndian(x[2..]);
  }

  lemma FourAndFour(x: seq<byte>)
    requires |x| == 8
    ensures FromLittleEndian(x) == FromLittleEndian(x[..4]) + 0x1_0000_0000 * FromLittleEndian(x[4..])
  {
    Ahead(x, 4);
    Ahead(x, 3);
    Ahead(x, 2);
    Ahead(x, 1);
    assert x[0..4] == x[..4] && x[0..] == x && x[4..4] == [];
  }

  lemma Ahead(x: seq<byte>, k: nat)
    requires 1 <= k <= 4 && |x| == 8
    ensures FromLittleEndian(x[k-1..4]) == x[k-1] + 256 * FromLittleEndian(x[k..4])
    ensures FromLittleEndian(x[k-1..]) == x[k-1] + 256 * FromLittleEndian(x[k..])
  {
    assert x[k-1..4][1..] == x[k..4] && x[k-1..][1..] == x[k..];
  }

  /** Bytes, strings and fixed-length bytes that fit the member, in which a string
      needs one more byte and bytes four more; and submessages. */
  lemma BlobReads(f: Field, l: seq<byte>, x: seq<byte>, tail: seq<byte>, prior: Value)
    requires IsVarint(l) && |l| <= 5 && Total(l) % 0x1_0000_0000 == |x|
    ensures f.ltype == LBytes ==> DecValue(f, l + x + tail, prior)
                                  == if |x| + 4 <= f.dataSize then Some((Blob(x), tail)) else None
    ensures f.ltype == LString ==> DecValue(f, l + x + tail, prior)
                                   == if |x| + 1 <= f.dataSize then Some((Blob(x), tail)) else None
    ensures f.ltype == LFixedBytes ==>
              DecValue(f, l + x + tail, prior)
              == if x == [] then Some((Blob(seq(f.dataSize, _ => 0)), tail))
                 else if |x| == f.dataSize then Some((Blob(x), tail)) else None
    ensures f.ltype == LSubmessage ==>
              DecValue(f, l + x + tail, prior)
              == match DecMessage(f.sub, x, if f.htype in {Repeated, Oneof} then Defaults(f.sub) else StructOf(prior))
                 case None => None
                 case Some(m) => Some((Msg(m), tail))
  {
    hide DecMessage, Defaults;
    assert l + x + tail == l + (x + tail);
    DelimitedReads(l, x, tail);
    assert Zeros(f.dataSize) == seq(f.dataSize, _ => 0);
  }

  // ----- what a record stores -----

  /** Where decoding stands after a declared field: its number among the required
      ones, of which the first 64 are kept track of, has occurred. */
  function Occurred(fields: seq<Field>, i: nat, p: Progress, m: Struct): Progress
    requires i < |fields|
  {
    var k := ReqCount(fields[..i]);
    Progress(m, if fields[i].htype.Required? && k < 64 then p.seen + {k} else p.seen)
  }

  lemma DeclaredRecord(fields: seq<Field>, i: nat, wireType: nat, s: seq<byte>, p: Progress)
    requires UniqueTags(fields) && i < |fields| && 1 <= fields[i].tag < 0x2000_0000 && wireType < 8
    ensures DecLoop(fields, Varint(8 * fields[i].tag + wireType) + s, p)
         == match DecField(fields[i], wireType, s, p.m)
            case None => None
            case Some((m, rest)) => DecLoop(fields, rest, Occurred(fields, i, p, m))
  {
    hide DecField;
    FindUnique(fields, i);
    TagRoundTrip(wireType, fields[i].tag, s);
  }

  /** A field that is not repeated takes the value, in the place of the old one, and
      is there from then on. */
  lemma ValueStored(fields: seq<Field>, i: nat, wireType: nat, x: seq<byte>, v: Option<Value>, tail: seq<byte>,
                    p: Progress)
    requires UniqueTags(fields) && i < |fields| && 1 <= fields[i].tag < 0x2000_0000 && wireType < 8
    requires !fields[i].htype.Repeated?
    requires DecValue(fields[i], x + tail, ValueAt(fields[i], p.m))
             == match v case None => None case Some(w) => Some((w, tail))
    ensures var f := fields[i];
            DecLoop(fields, Varint(8 * f.tag + wireType) + x + tail, p)
            == match v
               case None => None
               case Some(w) =>
                 var slot := match f.htype case Optional => Opt(true, w) case Oneof => Union(f.tag, w) case _ => One(w);
                 DecLoop(fields, tail, Occurred(fields, i, p, p.m[f.member := slot]))
  {
    hide DecLoop, DecValue;
    assert Varint(8 * fields[i].tag + wireType) + x + tail == Varint(8 * fields[i].tag + wireType) + (x + tail);
    DeclaredRecord(fields, i, wireType, x + tail, p);
  }

  /** An item of a repeated field is added while there is room: items of numbers may
      come one by one, too. */
  lemma ItemStored(fields: seq<Field>, i: nat, wireType: nat, x: seq<byte>, v: Option<Value>, tail: seq<byte>,
                   p: Progress)
    requires UniqueTags(fields) && i < |fields| && 1 <= fields[i].tag < 0x2000_0000 && wireType < 8
    requires fields[i].htype.Repeated?
    requires wireType == 2 ==> fields[i].ltype in {LBytes, LString, LSubmessage, LFixedBytes}
    requires DecValue(fields[i], x + tail, Num(0)) == match v case None => None case Some(w) => Some((w, tail))
    ensures var f := fields[i]; var items := ItemsAt(f, p.m);
            DecLoop(fields, Varint(8 * f.tag + wireType) + x + tail, p)
            == if v.None? || |items| >= f.arraySize then None
               else DecLoop(fields, tail, Occurred(fields, i, p, p.m[f.member := Rep(items + [v.value])]))
  {
    hide DecLoop, DecValue;
    assert Varint(8 * fields[i].tag + wireType) + x + tail == Varint(8 * fields[i].tag + wireType) + (x + tail);
    DeclaredRecord(fields, i, wireType, x + tail, p);
  }

  function Joined(xs: seq<seq<byte>>): seq<byte> { if xs == [] then [] else xs[0] + Joined(xs[1..]) }

  /** The bytes of an item are read as its value, whatever comes after them. */
  ghost predicate IsItem(f: Field, x: seq<byte>, v: Value) {
    x != [] && forall t :: DecValue(f, x + t, Num(0)) == Some((v, t))
  }

  ghost predicate AreItems(f: Field, xs: seq<seq<byte>>, vs: seq<Value>) {
    |xs| == |vs| && forall k :: 0 <= k < |xs| ==> IsItem(f, xs[k], vs[k])
  }

  lemma {:induction false} PackedReads(f: Field, xs: seq<seq<byte>>, vs: seq<Value>, items: seq<Value>)
    requires AreItems(f, xs, vs)
    ensures DecPacked(f, Joined(xs), items)
         == if vs == [] || |items| + |vs| <= f.arraySize then Some(items + vs) else None
    decreases |xs|
  {
    hide DecValue;
    if xs == [] {
      assert items + vs == items;
    } else {
      var t := Joined(xs[1..]);
      assert IsItem(f, xs[0], vs[0]);
      assert DecValue(f, xs[0] + t, Num(0)) == Some((vs[0], t));
      PackedReads(f, xs[1..], vs[1..], items + [vs[0]]);
      assert items + [vs[0]] + vs[1..] == items + vs;
    }
  }

  /** Numbers may also come packed: under one length, one after the other. */
  lemma PackedStored(fields: seq<Field>, i: nat, l: seq<byte>, xs: seq<seq<byte>>, vs: seq<Value>, tail: seq<byte>,
                     p: Progress)
    requires UniqueTags(fields) && i < |fields| && 1 <= fields[i].tag < 0x2000_0000
    requires fields[i].htype.Repeated? && fields[i].ltype in {LVarint, LUVarint, LSVarint, LFixed32, LFixed64}
    requires AreItems(fields[i], xs, vs) && IsVarint(l) && |l| <= 5 && Total(l) % 0x1_0000_0000 == |Joined(xs)|
    ensures var f := fields[i]; var items := ItemsAt(f, p.m);
            DecLoop(fields, Varint(8 * f.tag + 2) + l + Joined(xs) + tail, p)
            == if vs == [] || |items| + |vs| <= f.arraySize then
                 DecLoop(fields, tail, Occurred(fields, i, p, p.m[f.member := Rep(items + vs)]))
               else None
  {
    hide DecLoop, DecValue, DecPacked, AreItems, DecDelimited;
    var f, x := fields[i], Joined(xs);
    Regroup(Varint(8 * f.tag + 2), l, x, tail);
    DeclaredRecord(fields, i, 2, l + (x + tail), p);
    DelimitedReads(l, x, tail);
    PackedReads(f, xs, vs, ItemsAt(f, p.m));
  }

  // ----- what does not occur -----

  lemma FieldKeepsOthers(f: Field, wireType: nat, s: seq<byte>, m: Struct, x: nat)
    requires x != f.member && DecField(f, wireType, s, m).Some?
    ensures var r := DecField(f, wireType, s, m).value.0; (x in r <==> x in m) && (x in m ==> r[x] == m[x])
  {
    hide DecValue, DecPacked;
  }

  lemma {:induction false} LoopKeepsOthers(fields: seq<Field>, s: seq<byte>, p: Progress, x: nat)
    requires DecLoop(fields, s, p).Some?
    requires forall j :: 0 <= j < |fields| && fields[j].member == x ==> fields[j].tag !in Occurring(fields, s, p)
    ensures var r := DecLoop(fields, s, p).value.0.m; (x in r <==> x in p.m) && (x in p.m ==> r[x] == p.m[x])
    decreases |s|
  {
    hide DecField, SkipField, DecodeTag, Find;
    if s != [] && DecRecord(fields, s, p).Next? {
      var r := DecRecord(fields, s, p);
      var t := DecodeTag(s);
      var j := Find(fields, t.tag);
      if j.Some? {
        assert t.tag in Occurring(fields, s, p) && fields[j.value].tag == t.tag;
        FieldKeepsOthers(fields[j.value], t.wireType, t.rest, p.m, x);
      }
      LoopKeepsOthers(fields, r.rest, r.p, x);
    }
  }

  /** A member none of whose fields occur in the input has its declared default after
      decoding, and is absent, empty or unselected. */
  lemma MissingIsDefault(fields: seq<Field>, s: seq<byte>, i: nat)
    requires SeparateMembers(fields) && i < |fields| && Decode(fields, s).Some?
    requires forall j :: 0 <= j < |fields| && fields[j].member == fields[i].member ==>
               fields[j].tag !in Occurring(fields, s, Progress(Defaults(fields), {}))
    ensures var f, r := fields[i], Decode(fields, s).value;
            var v := if f.ltype.LSubmessage? then Msg(Defaults(f.sub)) else f.dflt;
            f.member in r && r[f.member] == match f.htype
                                            case Optional => Opt(false, v)
                                            case Repeated => Rep([])
                                            case Oneof => Union(0, Num(0))
                                            case _ => One(v)
  {
    hide DecLoop, Occurring, Defaults;
    DefaultsAt(fields, i);
    LoopKeepsOthers(fields, s, Progress(Defaults(fields), {}), fields[i].member);
  }

  // ----- what is written -----

  /** A number with its tag: wire type 0 for varints, in which a negative number
      takes 64 bits and sint counts 0, -1, 1, -2 and so on; */
  lemma VarintWritten(f: Field, n: int)
    requires f.dataSize in {1, 2, 4, 8} && -0x8000_0000_0000_0000 <= n < 0x1_0000_0000_0000_0000
    ensures f.ltype in {LVarint, LUVarint} ==>
              EncTagged(f, Num(n))
              == Some(Varint(8 * f.tag) + Varint(if n >= 0 then n else 0x1_0000_0000_0000_0000 + n))
    ensures f.ltype == LSVarint && n < 0x8000_0000_0000_0000 ==>
              EncTagged(f, Num(n)) == Some(Varint(8 * f.tag) + Varint(if n >= 0 then 2 * n else -2 * n - 1))
  {
    hide Varint;
    SixtyFour(n);
    hide ToU64;
  }

  lemma SixtyFour(n: int)
    requires -0x8000_0000_0000_0000 <= n < 0x1_0000_0000_0000_0000
    ensures ToU64(n) == if n >= 0 then n else 0x1_0000_0000_0000_0000 + n
  {
  }

  /** 5 and 1 for the fixed widths, low byte first. */
  lemma FixedWritten(f: Field, n: nat)
    ensures f.ltype == LFixed32 && n < 0x1_0000_0000 ==>
              EncTagged(f, Num(n)) == Some(Varint(8 * f.tag + 5) + Bytes4(n))
    ensures f.ltype == LFixed64 && n < 0x1_0000_0000_0000_0000 ==>
              EncTagged(f, Num(n)) == Some(Varint(8 * f.tag + 1) + (Bytes4(n) + Bytes4(n / 0x1_0000_0000)))
  {
    hide Varint;
    if f.ltype == LFixed32 && n < 0x1_0000_0000 {
      FourWritten(n);
      hide LittleEndian, Bytes4;
    } else if f.ltype == LFixed64 && n < 0x1_0000_0000_0000_0000 {
      EightWritten(n);
      SixtyFour(n);
      hide LittleEndian, Bytes4, ToU64;
    }
  }

  function Bytes4(n: nat): seq<byte> { [n % 0x100, n / 0x100 % 0x100, n / 0x1_0000 % 0x100, n / 0x100_0000 % 0x100] }

  lemma FourWritten(n: nat)
    ensures LittleEndian(n, 4) == Bytes4(n)
  {
    assert LittleEndian(n, 4) == [n % 256] + LittleEndian(n / 256, 3);
    assert LittleEndian(n / 256, 3) == [n / 256 % 256] + LittleEndian(n / 256 / 256, 2);
    assert LittleEndian(n / 256 / 256, 2) == [n / 256 / 256 % 256] + LittleEndian(n / 256 / 256 / 256, 1);
    var m := n / 256 / 256 / 256;
    assert LittleEndian(m, 1) == [m % 256] + LittleEndian(m / 256, 0);
    assert n / 256 / 256 == n / 0x1_0000 && n / 256 / 256 / 256 == n / 0x100_0000;
  }

  lemma EightWritten(n: nat)
    ensures LittleEndian(n, 8) == Bytes4(n) + Bytes4(n / 0x1_0000_0000)
  {
    FourWritten(n / 0x1_0000_0000);
    assert LittleEndian(n, 8) == [n % 256] + LittleEndian(n / 256, 7);
    assert LittleEndian(n / 256, 7) == [n / 256 % 256] + LittleEndian(n / 256 / 256, 6);
    assert LittleEndian(n / 256 / 256, 6) == [n / 256 / 256 % 256] + LittleEndian(n / 256 / 256 / 256, 5);
    assert LittleEndian(n / 256 / 256 / 256, 5)
        == [n / 256 / 256 / 256 % 256] + LittleEndian(n / 256 / 256 / 256 / 256, 4);
    assert n / 256 / 256 == n / 0x1_0000 && n / 256 / 256 / 256 == n / 0x100_0000;
    assert n / 256 / 256 / 256 / 256 == n / 0x1_0000_0000;
  }

  /** Bytes with their tag, of wire type 2, and their length: a string up to its NUL,
      a submessage as its fields. */
  lemma BlobWritten(f: Field, v: Value) returns (n: nat)
    ensures f.ltype == LBytes ==>
              EncTagged(f, v) == if |BytesOf(v)| + 4 > f.dataSize then None
                                 else Some(Varint(8 * f.tag + 2) + (Varint(|BytesOf(v)|) + BytesOf(v)))
    ensures f.ltype == LFixedBytes ==>
              EncTagged(f, v) == Some(Varint(8 * f.tag + 2) + (Varint(|BytesOf(v)|) + BytesOf(v)))
    ensures n <= |BytesOf(v)| && (n < |BytesOf(v)| ==> BytesOf(v)[n] == 0)
    ensures forall k :: 0 <= k < n ==> BytesOf(v)[k] != 0
    ensures f.ltype == LString ==>
              EncTagged(f, v) == Some(Varint(8 * f.tag + 2) + (Varint(n) + BytesOf(v)[..n]))
    ensures f.ltype == LSubmessage && EncFields(f.sub, StructOf(v)).Some? ==>
              var b := EncFields(f.sub, StructOf(v)).value;
              EncTagged(f, v) == Some(Varint(8 * f.tag + 2) + (Varint(|b|) + b))
  {
    hide Varint;
    UpToNulIs(BytesOf(v));
    n := |UpToNul(BytesOf(v))|;
  }

  lemma {:induction false} UpToNulIs(s: seq<byte>)
    ensures var n := |UpToNul(s)|;
            UpToNul(s) == s[..n] && (n < |s| ==> s[n] == 0) && forall k :: 0 <= k < n ==> s[k] != 0
  {
    if s != [] && s[0] != 0 { UpToNulIs(s[1..]); }
  }

  /** A place in the struct that is zero: a number, an empty string, bytes of no
      length, or such a submessage. */
  predicate IsZero(g: Field, v: Value) {
    match g.ltype
    case LBytes => |BytesOf(v)| == 0
    case LString => BytesOf(v) == [] || BytesOf(v)[0] == 0
    case LFixedBytes => g.dataSize == 0
    case LSubmessage => IsProto3Default(g, v)
    case _ => NumOf(v) == 0
  }

  /** A proto3 submessage is left out exactly if the places of all its fields are
      zero, the first one of an array and whatever has_ members say. */
  lemma SubmessageSkipped(f: Field, m: Struct)
    requires f.htype == Singular && f.ltype == LSubmessage
    ensures var s := StructOf(ValueAt(f, m));
            EncField(f, m) == Some([]) <==> forall i :: 0 <= i < |f.sub| ==> IsZero(f.sub[i], FirstSlot(f.sub[i], s))
  {
    var s := StructOf(ValueAt(f, m));
    forall i | 0 <= i < |f.sub| ensures SlotDefault(f.sub[i], s) <==> IsZero(f.sub[i], FirstSlot(f.sub[i], s)) {}
    assert LooksDefault(f.sub, s) <==> forall i :: 0 <= i < |f.sub| ==> SlotDefault(f.sub[i], s);
    assert IsProto3Default(f, ValueAt(f, m)) <==> LooksDefault(f.sub, s);
    hide IsProto3Default, LooksDefault, SlotDefault, FirstSlot;
  }

  /** Arrays: numbers packed under one tag and length, other items each with its tag;
      nothing for an empty one. */
  lemma ArrayWritten(f: Field, items: seq<Value>, xs: seq<seq<byte>>)
    requires |xs| == |items| <= f.arraySize && items != []
    requires var packed := f.ltype in {LVarint, LUVarint, LSVarint, LFixed32, LFixed64};
             forall k :: 0 <= k < |xs| ==>
               (if packed then EncValue(f, items[k]) else EncTagged(f, items[k])) == Some(xs[k])
    ensures EncArray(f, items)
         == if f.ltype in {LVarint, LUVarint, LSVarint, LFixed32, LFixed64} then
              Some(Varint(8 * f.tag + 2) + (Varint(|Joined(xs)|) + Joined(xs)))
            else Some(Joined(xs))
    ensures EncArray(f, []) == Some([])
  {
    hide Varint, EncValue, EncTagged;
    ItemsJoined(f, items, xs, !Packable(f.ltype));
  }

  lemma {:induction false} ItemsJoined(f: Field, items: seq<Value>, xs: seq<seq<byte>>, tagged: bool)
    requires |xs| == |items|
    requires forall k :: 0 <= k < |xs| ==>
               (if tagged then EncTagged(f, items[k]) else EncValue(f, items[k])) == Some(xs[k])
    ensures EncItems(f, items, tagged) == Some(Joined(xs))
    decreases |items|
  {
    hide EncValue, EncTagged;
    if items != [] { ItemsJoined(f, items[1..], xs[1..], tagged); }
  }
}
