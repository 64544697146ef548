/** pb_decode.c as it runs: an input stream advanced in place, substreams that
    limit how far a value may read, the shared field iterator and the bitset of
    required fields. Every method is proved to compute PbModel's functions. */
module PbDecoder {
  import opened Wrappers
  import opened Bits
  import opened Bytes
  import opened PbWire
  import opened PbModel
  import opened PbMerge
  import opened PbIter

  /** A descriptor that the decoder takes: field numbers are its fields' own, and C
      defines its required-field check (pb_decode.c:940-948), here and in every
      submessage. */
  predicate Decodable(fields: seq<Field>)
    decreases fields, 1
  {
    UniqueTags(fields) && Iterable(fields) && CountDefined(fields)
    && forall i :: 0 <= i < |fields| ==> DecodableField(fields[i])
  }

  predicate DecodableField(f: Field)
    decreases f, 0
  {
    f.ltype.LSubmessage? ==> Decodable(f.sub)
  }

  /** pb_istream_t over a memory buffer. */
  class IStream {
    const data: seq<byte>
    var state: nat
    var bytesLeft: nat

    ghost predicate Valid()
      reads this
    {
      state + bytesLeft <= |data|
    }

    /** The bytes still to be read. */
    ghost function Rest(): (r: seq<byte>)
      requires Valid()
      reads this
      ensures |r| == bytesLeft
    {
      data[state..state + bytesLeft]
    }

    /** pb_istream_from_buffer, or a copy of a stream. */
    constructor (data: seq<byte>, state: nat, bytesLeft: nat)
      requires state + bytesLeft <= |data|
      ensures Valid() && this.data == data && this.state == state && this.bytesLeft == bytesLeft
    {
      this.data, this.state, this.bytesLeft := data, state, bytesLeft;
    }

    /** pb_read, storing what is read or (pb_read with NULL) skipping it. */
    method Read(count: nat) returns (ok: bool, bytes: seq<byte>)
      requires Valid()
      modifies this
      ensures Valid() && Within(true) && (ok <==> count <= |old(Rest())|)
      ensures if ok then bytes == old(Rest())[..count] && Rest() == old(Rest())[count..] else Rest() == old(Rest())
    {
      if bytesLeft < count { return false, []; }
      bytes := data[state..state + count];
      state := state + count;
      bytesLeft := bytesLeft - count;
      ok := true;
    }

    /** pb_readbyte. */
    method ReadByte() returns (ok: bool, b: byte)
      requires Valid()
      modifies this
      ensures Valid() && Within(true) && (ok <==> old(Rest()) != [])
      ensures if ok then b == old(Rest())[0] && Rest() == old(Rest())[1..] else Rest() == []
    {
      if bytesLeft == 0 { return false, 0; }
      b := data[state];
      state := state + 1;
      bytesLeft := bytesLeft - 1;
      ok := true;
    }

    /** A reader never reads past the end it was given, and a successful one
        leaves that end where it was. */
    twostate predicate Within(ok: bool)
      reads this
    {
      state + bytesLeft <= old(state + bytesLeft) && (ok ==> state + bytesLeft == old(state + bytesLeft))
    }

    /** What a reader that should return spec's value and rest did. */
    twostate predicate Got<T>(new spec: Option<(T, seq<byte>)>, ok: bool, new value: T)
      requires old(Valid())
      reads this
    {
      Valid() && Within(ok) && (ok <==> spec.Some?) && (ok ==> spec == Some((value, Rest())))
    }

    /** pb_decode_varint. */
    method ReadVarint() returns (ok: bool, value: nat)
      requires Valid()
      modifies this
      ensures Got(DecodeVarint(old(Rest())), ok, value)
      ensures Within(true) && (ok ==> value < TWO64)
    {
      hide Or, Pow2, GroupValue, VarintLen;
      ghost var s := Rest();
      var bitpos, result, more: bool := 0, 0, true;
      ghost var k := 0;
      GroupsReadStart(s);
      while more
        invariant Valid() && Within(true) && 0 <= k <= |s| && bitpos == 7 * k && k <= 10
        invariant Rest() == s[k..]
        invariant more ==> VarintContinues(s, k) && (bitpos < 64 ==> result == GroupValue(s[..k]))
        invariant !more ==> VarintLen(s) == Some(k) && result == GroupValue(s[..k]) % TWO64
        decreases more, |s| - k
      {
        if bitpos >= 64 { return false, 0; }
        var got, b := ReadByte();
        if !got { return false, 0; }
        GroupsReadStep(s, k, result, 64);
        result := Or(result, (b % 128) * Pow2(bitpos) % Pow2(64));
        bitpos := bitpos + 7;
        k := k + 1;
        more := b >= 128;
      }
      ok, value := true, result;
    }

    /** pb_decode_varint32; a failure that used up the stream is one on at most
        five remaining bytes. */
    method ReadVarint32() returns (ok: bool, value: nat)
      requires Valid()
      modifies this
      ensures Got(DecodeVarint32(old(Rest())), ok, value)
      ensures Within(true) && (ok ==> value < TWO32)
      ensures !ok ==> (bytesLeft == 0 <==> |old(Rest())| <= 5)
    {
      hide Or, Pow2, GroupValue, VarintLen;
      ghost var s := Rest();
      GroupsReadStart(s);
      var got, b := ReadByte();
      if !got { return false, 0; }
      FirstGroup(s);
      var result := b;
      if b >= 128 {
        var bitpos, more: bool := 7, true;
        result := b % 128;
        ghost var k := 1;
        while more
          invariant Valid() && Within(true) && 1 <= k <= |s| && bitpos == 7 * k && k <= 5
          invariant Rest() == s[k..]
          invariant more ==> VarintContinues(s, k) && (bitpos < 32 ==> result == GroupValue(s[..k]))
          invariant !more ==> VarintLen(s) == Some(k) && result == GroupValue(s[..k]) % TWO32
          decreases more, |s| - k
        {
          if bitpos >= 32 { return false, 0; }
          got, b := ReadByte();
          if !got { return false, 0; }
          GroupsReadStep(s, k, result, 32);
          result := Or(result, (b % 128) * Pow2(bitpos) % Pow2(32));
          bitpos := bitpos + 7;
          k := k + 1;
          more := b >= 128;
        }
      }
      ok, value := true, result;
    }
  }

  /** The first k bytes all have the continuation bit. */
  ghost predicate VarintContinues(s: seq<byte>, k: nat)
    requires k <= |s|
  {
    VarintLen(s) == match VarintLen(s[k..]) case None => None case Some(n) => Some(n + k)
  }

  lemma GroupsReadStart(s: seq<byte>)
    ensures VarintContinues(s, 0) && GroupValue(s[..0]) == 0
  {
    assert s[0..] == s;
  }

  lemma FirstGroup(s: seq<byte>)
    requires s != []
    ensures GroupValue(s[..1]) == s[0] % 128 < TWO32
    ensures s[0] < 128 ==> VarintLen(s) == Some(1)
    ensures s[0] >= 128 ==> VarintContinues(s, 1)
  {
  }

  lemma {:induction false} GroupAppended(s: seq<byte>, b: byte)
    ensures GroupValue(s + [b]) == GroupValue(s) + (b % 128) * Pow128(|s|)
  {
    if s == [] {
    } else {
      assert (s + [b])[1..] == s[1..] + [b];
      GroupAppended(s[1..], b);
      assert 128 * ((b % 128) * Pow128(|s| - 1)) == (b % 128) * Pow128(|s|);
    }
  }

  lemma {:induction false} Pow128IsPow2(k: nat)
    ensures Pow128(k) == Pow2(7 * k)
  {
    if k > 0 {
      Pow128IsPow2(k - 1);
      Pow2Add(7, 7 * (k - 1));
    }
  }

  lemma WordSizes()
    ensures Pow2(32) == TWO32 && Pow2(64) == TWO64
  {
    hide Pow2;
    assert Pow2(8) == 256 by { assert Pow2(4) == 16 by { SmallPowers(); } Pow2Add(4, 4); }
    Pow2Add(8, 8);
    Pow2Add(16, 16);
    Pow2Add(32, 32);
  }

  lemma SmallPowers()
    ensures Pow2(4) == 16
  {
  }

  /** Or-ing in the next seven bits of a varint, in a word of 64 or 32 bits. */
  lemma GroupsReadStep(s: seq<byte>, k: nat, result: nat, width: nat)
    requires (width == 64 && k < 10) || (width == 32 && k < 5)
    requires k < |s| && VarintContinues(s, k) && result == GroupValue(s[..k])
    ensures s[k..][0] == s[k] && s[k..][1..] == s[k+1..]
    ensures Or(result, (s[k] % 128) * Pow2(7 * k) % Pow2(width)) == GroupValue(s[..k+1]) % Pow2(width)
    ensures Pow2(width) == if width == 64 then TWO64 else TWO32
    ensures GroupValue(s[..k+1]) < Pow2(width) || s[k] < 128 || k == (if width == 64 then 9 else 4)
    ensures s[k] >= 128 ==> VarintContinues(s, k + 1)
    ensures s[k] < 128 ==> VarintLen(s) == Some(k + 1)
  {
    hide Pow2, Pow128, Or, GroupValue;
    assert s[..k+1] == s[..k] + [s[k]];
    GroupAppended(s[..k], s[k]);
    Pow128IsPow2(k);
    GroupValueBound(s[..k]);
    GroupValueBound(s[..k+1]);
    Pow128IsPow2(k + 1);
    WordSizes();
    OrShiftedIn(result, 7 * k, s[k] % 128, width);
    if 7 * (k + 1) <= width { Pow2Monotone(7 * (k + 1), width); }
  }

  // ----- skipping, tags and substreams -----

  /** pb_skip_varint. */
  method SkipVarintBytes(stream: IStream) returns (ok: bool)
    requires stream.Valid()
    modifies stream
    ensures stream.Valid() && stream.Within(ok) && (ok <==> SkipVarint(old(stream.Rest())).Some?)
    ensures ok ==> stream.Rest() == SkipVarint(old(stream.Rest())).value
  {
    hide VarintLen;
    ghost var s, k := stream.Rest(), 0;
    GroupsReadStart(s);
    while true
      invariant stream.Valid() && stream.Within(true) && 0 <= k <= |s| && stream.Rest() == s[k..]
      invariant VarintContinues(s, k)
      decreases |s| - k
    {
      SkipStep(s, k);
      var got, b := stream.ReadByte();
      if !got { return false; }
      k := k + 1;
      if b < 128 { return true; }
    }
  }

  lemma SkipStep(s: seq<byte>, k: nat)
    requires k <= |s| && VarintContinues(s, k)
    ensures k == |s| ==> VarintLen(s).None?
    ensures k < |s| ==> s[k..][0] == s[k] && s[k..][1..] == s[k+1..]
    ensures k < |s| && s[k] >= 128 ==> VarintContinues(s, k + 1)
    ensures k < |s| && s[k] < 128 ==> VarintLen(s) == Some(k + 1)
  {
    hide VarintLen;
    if k < |s| {
      SliceStep(s, k);
      LenStep(s[k..]);
    } else {
      assert s[k..] == [];
      EmptyLen();
    }
  }

  lemma SliceStep(s: seq<byte>, k: nat)
    requires k < |s|
    ensures s[k..] != [] && s[k..][0] == s[k] && s[k..][1..] == s[k+1..]
  {
  }

  lemma LenStep(t: seq<byte>)
    requires t != []
    ensures VarintLen(t) == if t[0] < 128 then Some(1)
                            else match VarintLen(t[1..]) case None => None case Some(n) => Some(n + 1)
  {
  }

  lemma EmptyLen()
    ensures VarintLen([]) == None
  {
  }

  /** pb_decode_tag: result tells a tag, the end of the message or an error. */
  method ReadTag(stream: IStream) returns (result: TagResult)
    requires stream.Valid()
    modifies stream
    ensures stream.Valid() && stream.Within(!result.TagError?) && result == DecodeTag(old(stream.Rest()))
    ensures !result.TagError? ==> stream.Rest() == result.rest
  {
    hide DecodeVarint32;
    var ok, temp := stream.ReadVarint32();
    if !ok {
      if stream.bytesLeft == 0 { return TagEof([]); }
      return TagError;
    }
    if temp == 0 { return TagEof(stream.data[stream.state..stream.state + stream.bytesLeft]); }
    return TagOk(temp % 8, temp / 8, stream.data[stream.state..stream.state + stream.bytesLeft]);
  }

  /** pb_make_string_substream. The parent's position moves on only when the
      substream is closed. */
  method MakeSubstream(stream: IStream) returns (ok: bool, sub: IStream?)
    requires stream.Valid()
    modifies stream
    ensures stream.Valid() && stream.Within(false)
    ensures ok <==> DecDelimited(old(stream.Rest())).Some?
    ensures ok ==> sub != null && fresh(sub) && sub.Valid() && sub.data == stream.data
    ensures ok ==> sub.Rest() == DecDelimited(old(stream.Rest())).value.0 && |sub.Rest()| < |old(stream.Rest())|
    ensures ok ==> sub.state + sub.bytesLeft + stream.bytesLeft == old(stream.state + stream.bytesLeft)
    ensures ok ==>
              stream.data[sub.state + sub.bytesLeft..][..stream.bytesLeft] == DecDelimited(old(stream.Rest())).value.1
  {
    hide DecodeVarint32;
    var size;
    ok, size := stream.ReadVarint32();
    if !ok { return false, null; }
    sub := new IStream(stream.data, stream.state, stream.bytesLeft);
    if sub.bytesLeft < size { return false, null; }
    ghost var rest := stream.Rest();
    sub.bytesLeft := size;
    stream.bytesLeft := stream.bytesLeft - size;
    assert sub.Rest() == rest[..size];
    assert stream.data[sub.state + size..][..stream.bytesLeft] == rest[size..];
  }

  /** pb_close_string_substream: skips what the value left unread. */
  method CloseSubstream(stream: IStream, sub: IStream)
    requires stream != sub && sub.Valid() && sub.data == stream.data
    requires sub.state + sub.bytesLeft + stream.bytesLeft <= |stream.data|
    modifies stream, sub
    ensures stream.Valid() && stream.bytesLeft == old(stream.bytesLeft)
    ensures stream.state == old(sub.state + sub.bytesLeft)
    ensures stream.Rest() == stream.data[old(sub.state + sub.bytesLeft)..][..old(stream.bytesLeft)]
  {
    if sub.bytesLeft != 0 {
      var ok, skipped := sub.Read(sub.bytesLeft);
    }
    stream.state := sub.state;
  }

  /** pb_skip_string. */
  method SkipString(stream: IStream) returns (ok: bool)
    requires stream.Valid()
    modifies stream
    ensures stream.Valid() && stream.Within(ok) && (ok <==> DecDelimited(old(stream.Rest())).Some?)
    ensures ok ==> stream.Rest() == DecDelimited(old(stream.Rest())).value.1
  {
    hide DecodeVarint32;
    var length;
    ok, length := stream.ReadVarint32();
    if !ok { return; }
    var skipped;
    ok, skipped := stream.Read(length);
  }

  /** pb_skip_field. */
  method SkipUnknown(stream: IStream, wireType: nat) returns (ok: bool)
    requires stream.Valid()
    modifies stream
    ensures stream.Valid() && stream.Within(ok) && (ok <==> SkipField(wireType, old(stream.Rest())).Some?)
    ensures ok ==> stream.Rest() == SkipField(wireType, old(stream.Rest())).value
  {
    hide DecDelimited, SkipVarint;
    var skipped;
    if wireType == WT_VARINT { ok := SkipVarintBytes(stream); }
    else if wireType == WT_64BIT { ok, skipped := stream.Read(8); }
    else if wireType == WT_STRING { ok := SkipString(stream); }
    else if wireType == WT_32BIT { ok, skipped := stream.Read(4); }
    else { ok := false; }
  }

  // ----- values -----

  /** The length and contents of a bytes, string or fixed-length value, checked
      against the room for it before reading. */
  method ReadBlob(stream: IStream, room: int) returns (ok: bool, d: seq<byte>)
    requires stream.Valid()
    modifies stream
    ensures stream.Valid() && stream.Within(ok)
    ensures ok <==> DecDelimited(old(stream.Rest())).Some? && |DecDelimited(old(stream.Rest())).value.0| <= room
    ensures ok ==> DecDelimited(old(stream.Rest())) == Some((d, stream.Rest()))
  {
    hide DecodeVarint32;
    var size;
    ok, size := stream.ReadVarint32();
    if !ok { return false, []; }
    if size > room { return false, []; }
    ok, d := stream.Read(size);
  }

  /** The decoder functions PB_DECODERS holds, for the types that are not
      submessages. */
  method ReadScalar(stream: IStream, f: Field) returns (ok: bool, v: Value)
    requires stream.Valid() && !f.ltype.LSubmessage?
    modifies stream
    ensures stream.Got(DecValue(f, old(stream.Rest()), Num(0)), ok, v)
  {
    hide DecodeVarint, DecDelimited, Narrow, FromLittleEndian;
    v := Num(0);
    match f.ltype
    case LVarint | LUVarint | LSVarint =>
      var u;
      ok, u := stream.ReadVarint();
      if !ok { return; }
      var n := Narrow(f.ltype, f.dataSize, u);
      if n.None? { return false, v; }
      v := Num(n.value);
    case LFixed32 =>
      var bytes;
      ok, bytes := stream.Read(4);
      v := Num(FromLittleEndian(bytes));
    case LFixed64 =>
      var bytes;
      ok, bytes := stream.Read(8);
      v := Num(FromLittleEndian(bytes));
    case LBytes =>
      var d;
      ok, d := ReadBlob(stream, f.dataSize - BYTES_HEADER);
      v := Blob(d);
    case LString =>
      var d;
      ok, d := ReadBlob(stream, f.dataSize - 1);
      v := Blob(d);
    case LFixedBytes =>
      var d;
      ok, d := ReadBlob(stream, f.dataSize);
      if !ok { return; }
      if d == [] { v := Blob(Zeros(f.dataSize)); }
      else if |d| != f.dataSize { return false, v; }
      else { v := Blob(d); }
  }

  lemma PriorUnused(f: Field, s: seq<byte>, prior: Value)
    requires !f.ltype.LSubmessage?
    ensures DecValue(f, s, prior) == DecValue(f, s, Num(0))
  {
  }

  /** Any decoder function; a submessage is read from a substream. */
  method ReadValue(stream: IStream, f: Field, prior: Value) returns (ok: bool, v: Value)
    requires stream.Valid() && DecodableField(f)
    modifies stream
    ensures stream.Got(DecValue(f, old(stream.Rest()), prior), ok, v)
    decreases stream.bytesLeft, 0
  {
    hide DecDelimited, Decodable, DecMessage;
    v := prior;
    if !f.ltype.LSubmessage? {
      PriorUnused(f, stream.Rest(), prior);
      ok, v := ReadScalar(stream, f);
      return;
    }
    var sub;
    ok, sub := MakeSubstream(stream);
    if !ok { return; }
    var r;
    ok, r := DecodeInto(sub, f.sub, Start(f, prior));
    CloseSubstream(stream, sub);
    v := Msg(r);
  }

  /** The packed-array loop of decode_static_field, on its substream. */
  method ReadPacked(stream: IStream, f: Field, items: seq<Value>) returns (ok: bool, r: seq<Value>)
    requires stream.Valid() && Packable(f.ltype)
    modifies stream
    ensures stream.Valid() && stream.Within(ok)
    ensures ok <==> DecPacked(f, old(stream.Rest()), items).Some?
    ensures ok ==> r == DecPacked(f, old(stream.Rest()), items).value
  {
    hide DecValue;
    r := items;
    while stream.bytesLeft > 0 && |r| < f.arraySize
      invariant stream.Valid() && stream.Within(true)
      invariant DecPacked(f, old(stream.Rest()), items) == DecPacked(f, stream.Rest(), r)
      decreases stream.bytesLeft
    {
      PackableAdvances(f, stream.Rest());
      var v;
      ok, v := ReadScalar(stream, f);
      if !ok { return; }
      r := r + [v];
    }
    ok := stream.bytesLeft == 0;
  }

  lemma PackableAdvances(f: Field, s: seq<byte>)
    requires Packable(f.ltype)
    ensures DecValue(f, s, Num(0)).Some? ==> |DecValue(f, s, Num(0)).value.1| < |s|
  {
  }

  // ----- fields -----

  /** decode_static_field. */
  method DecodeField(stream: IStream, f: Field, wireType: nat, m: Struct) returns (ok: bool, r: Struct)
    requires stream.Valid() && DecodableField(f)
    modifies stream
    ensures stream.Got(DecField(f, wireType, old(stream.Rest()), m), ok, r)
    decreases stream.bytesLeft, 2
  {
    hide DecDelimited, DecValue, DecPacked, Decodable;
    r := m;
    if f.htype.Repeated? {
      ok, r := DecodeRepeated(stream, f, wireType, m);
      return;
    }
    var v;
    ok, v := ReadValue(stream, f, ValueAt(f, m));
    if !ok { return; }
    match f.htype
    case Optional => r := m[f.member := Opt(true, v)];
    case Oneof => r := m[f.member := Union(f.tag, v)];
    case _ => r := m[f.member := One(v)];
  }

  /** The PB_HTYPE_REPEATED case: a packed array, or one more item. */
  method DecodeRepeated(stream: IStream, f: Field, wireType: nat, m: Struct) returns (ok: bool, r: Struct)
    requires stream.Valid() && DecodableField(f) && f.htype.Repeated?
    modifies stream
    ensures stream.Got(DecField(f, wireType, old(stream.Rest()), m), ok, r)
    decreases stream.bytesLeft, 1
  {
    hide DecDelimited, DecValue, DecPacked, Decodable;
    r := m;
    if wireType == WT_STRING && Packable(f.ltype) {
      var sub;
      ok, sub := MakeSubstream(stream);
      if !ok { return; }
      var items;
      ok, items := ReadPacked(sub, f, ItemsAt(f, m));
      if !ok { return; }
      CloseSubstream(stream, sub);
      r := m[f.member := Rep(items)];
    } else {
      if |ItemsAt(f, m)| >= f.arraySize { return false, m; }
      var v;
      ok, v := ReadValue(stream, f, Num(0));
      if !ok { return; }
      r := m[f.member := Rep(ItemsAt(f, m) + [v])];
    }
  }

  // ----- fields_seen -----

  /** fields_seen, two 32-bit words, holds the positions in seen. */
  ghost predicate Holds(words: seq<nat>, seen: set<nat>) {
    |words| == 2 && words[0] < Pow2(32) && words[1] < Pow2(32)
    && (forall k :: k in seen ==> k < MAX_REQUIRED)
    && forall k :: 0 <= k < 32 ==> (k in seen <==> Bit(words[0], k)) && (k + 32 in seen <==> Bit(words[1], k))
  }

  /** fields_seen[k >> 5] |= 1 << (k & 31) adds the position k. */
  method MarkSeen(words: array<nat>, k: nat, ghost seen: set<nat>)
    requires Holds(words[..], seen) && k < MAX_REQUIRED
    modifies words
    ensures Holds(words[..], seen + {k})
  {
    hide Pow2, Or, Bit;
    var w, b := k / 32, k % 32;
    ghost var before := words[..];
    Pow2Below(b);
    OrBound(words[w], Pow2(b), 32);
    words[w] := Or(words[w], Pow2(b));
    forall j | 0 <= j < 32
      ensures (j in seen + {k} <==> Bit(words[0], j)) && (j + 32 in seen + {k} <==> Bit(words[1], j))
    {
      BitOfOr(before[w], Pow2(b), j);
      BitOfPow2(b, j);
    }
  }

  lemma Pow2Below(b: nat)
    requires b < 32
    ensures Pow2(b) < Pow2(32)
  {
    Pow2Monotone(b, 32);
  }

  /** The check of the whole words and then of the remaining bits. */
  method CheckRequired(words: array<nat>, count: nat, ghost seen: set<nat>) returns (ok: bool)
    requires Holds(words[..], seen) && count < MAX_REQUIRED && count != 32
    requires forall k :: k in seen ==> k < count
    ensures ok <==> forall k :: 0 <= k < count ==> k in seen
  {
    hide Pow2, Bit;
    if count == 0 { return true; }
    var allbits := Pow2(32) - 1;
    var shift := 32 - count % 32;
    AllOnesShr(32, shift);
    if count > 32 {
      LowOnesExactly(words[0], 32, 32);
      LowOnesExactly(words[1], 32, count - 32);
      if words[0] != allbits {
        var k :| 0 <= k < 32 && Bit(words[0], k) != (k < 32);
        assert k !in seen;
        return false;
      }
      forall k | 0 <= k < 32 ensures k in seen { assert Bit(words[0], k) == (k < 32); }
      ok := words[1] == allbits / Pow2(shift);
      if ok {
        forall k | 32 <= k < count ensures k in seen {
          assert Bit(words[1], k - 32) == (k - 32 < count - 32);
          assert (k - 32) + 32 in seen;
        }
      } else {
        var k :| 0 <= k < 32 && Bit(words[1], k) != (k < count - 32);
        assert k + 32 !in seen && k + 32 < count;
      }
    } else {
      LowOnesExactly(words[0], 32, count);
      ok := words[0] == allbits / Pow2(shift);
      if ok {
        forall k | 0 <= k < count ensures k in seen { assert Bit(words[0], k) == (k < count); }
      } else {
        var k :| 0 <= k < 32 && Bit(words[0], k) != (k < count);
        assert k !in seen && k < count;
      }
    }
  }

  /** The loop that seeks the end of the descriptor to count required fields. */
  method CountRequired(iter: FieldIter) returns (count: nat)
    requires iter.Valid()
    modifies iter
    ensures iter.Valid() && count == ReqCount(iter.fields)
  {
    var last := iter.Current();
    count := iter.requiredFieldIndex;
    var more := iter.Next();
    while more
      invariant iter.Valid() && (more ==> iter.pos < |iter.fields|)
      invariant !more ==> iter.pos == 0
      invariant !more ==> if iter.fields == [] then count == 0
                          else
                            && last == iter.fields[|iter.fields| - 1]
                            && count == ReqCount(iter.fields[..|iter.fields| - 1])
      decreases if more then |iter.fields| - iter.pos else 0
    {
      last := iter.Current();
      count := iter.requiredFieldIndex;
      more := iter.Next();
    }
    if last.htype.Required? && iter.Current().tag != 0 {
      count := count + 1;
    }
  }

  // ----- messages -----

  datatype Status = Going | Ended | Failed

  lemma {:induction false} FindMeaning(fields: seq<Field>, tag: nat)
    ensures Find(fields, tag).Some? <==> exists i :: 0 <= i < |fields| && fields[i].tag == tag
  {
    if fields != [] {
      FindMeaning(fields[1..], tag);
      if i :| 0 <= i < |fields| && fields[i].tag == tag && i > 0 { assert fields[1..][i-1].tag == tag; }
      if i :| 0 <= i < |fields[1..]| && fields[1..][i].tag == tag { assert fields[i+1].tag == tag; }
    }
  }

  /** One round of pb_decode_noinit's loop. */
  method DecodeRound(stream: IStream, iter: FieldIter, words: array<nat>, m: Struct, ghost seen: set<nat>)
    returns (status: Status, r: Struct, ghost seen': set<nat>)
    requires stream.Valid() && iter.Valid() && Decodable(iter.fields) && Holds(words[..], seen)
    requires stream.bytesLeft > 0
    modifies stream, iter, words
    ensures stream.Valid() && iter.Valid() && stream.Within(!status.Failed?)
    ensures !status.Failed? ==> Holds(words[..], seen')
    ensures match DecRecord(iter.fields, old(stream.Rest()), Progress(m, seen))
            case End(rest) => status.Ended? && r == m && seen' == seen && stream.Rest() == rest
            case Bad => status.Failed?
            case Next(p, rest) => status.Going? && p == Progress(r, seen') && stream.Rest() == rest
    decreases stream.bytesLeft, 3
  {
    hide DecField, SkipField, Find, DecodableField, Holds, DecodeTag;
    r, seen' := m, seen;
    var t := ReadTag(stream);
    if t.TagEof? { return Ended, r, seen'; }
    if t.TagError? { return Failed, r, seen'; }
    FindMeaning(iter.fields, t.tag);
    var found := iter.FindTag(t.tag);
    if !found {
      var ok := SkipUnknown(stream, t.wireType);
      return if ok then Going else Failed, r, seen';
    }
    if iter.fields == [] {
      // The terminator matched: pb_dec_varint finds no usable data_size.
      return Failed, r, seen';
    }
    FindUnique(iter.fields, iter.pos);
    if iter.Current().htype.Required? && iter.requiredFieldIndex < MAX_REQUIRED {
      MarkSeen(words, iter.requiredFieldIndex, seen);
      seen' := seen + {iter.requiredFieldIndex};
    }
    var ok;
    ok, r := DecodeField(stream, iter.Current(), t.wireType, m);
    return if ok then Going else Failed, r, seen';
  }

  /** The whole loop of pb_decode_noinit. */
  method DecodeRounds(stream: IStream, iter: FieldIter, words: array<nat>, m: Struct)
    returns (ok: bool, r: Struct, ghost seen: set<nat>)
    requires stream.Valid() && iter.Valid() && Decodable(iter.fields) && Holds(words[..], {})
    modifies stream, iter, words
    ensures stream.Valid() && iter.Valid() && stream.Within(ok) && (ok ==> Holds(words[..], seen))
    ensures ok <==> DecLoop(iter.fields, old(stream.Rest()), Progress(m, {})).Some?
    ensures ok ==> DecLoop(iter.fields, old(stream.Rest()), Progress(m, {})) == Some((Progress(r, seen), stream.Rest()))
    decreases stream.bytesLeft, 4
  {
    hide DecRecord, Decodable, Holds, LaidOut, DecLoop;
    r, seen := m, {};
    var status := Going;
    while status.Going? && stream.bytesLeft > 0
      invariant stream.Valid() && stream.bytesLeft <= old(stream.bytesLeft) && stream.Within(true)
      invariant iter.Valid() && !status.Failed? && Holds(words[..], seen)
      invariant DecLoop(iter.fields, old(stream.Rest()), Progress(m, {}))
             == if status.Ended? then Some((Progress(r, seen), stream.Rest()))
                else DecLoop(iter.fields, stream.Rest(), Progress(r, seen))
      decreases if status.Going? then 1 + stream.bytesLeft else 0
    {
      LoopUnfolds(iter.fields, stream.Rest(), Progress(r, seen));
      status, r, seen := DecodeRound(stream, iter, words, r, seen);
      if status.Failed? { return false, r, seen; }
    }
    LoopUnfolds(iter.fields, stream.Rest(), Progress(r, seen));
    ok := true;
  }

  lemma LoopUnfolds(fields: seq<Field>, s: seq<byte>, p: Progress)
    ensures DecLoop(fields, s, p)
         == if s == [] then Some((p, []))
            else match DecRecord(fields, s, p)
              case End(rest) => Some((p, rest))
              case Bad => None
              case Next(p', rest) => DecLoop(fields, rest, p')
  {
  }

  /** pb_decode_noinit: merges the stream into the struct m. */
  method DecodeInto(stream: IStream, fields: seq<Field>, m: Struct) returns (ok: bool, r: Struct)
    requires stream.Valid() && Decodable(fields)
    modifies stream
    ensures stream.Valid() && stream.Within(ok)
    ensures ok <==> DecMessage(fields, old(stream.Rest()), m).Some?
    ensures ok ==> r == DecMessage(fields, old(stream.Rest()), m).value
    ensures ok ==> stream.Rest() == DecLoop(fields, old(stream.Rest()), Progress(m, {})).value.1
    decreases stream.bytesLeft, 5
  {
    hide DecLoop, DecodableField, Holds, LaidOut;
    var words := new nat[2](_ => 0);
    NothingSeen(words[..]);
    ghost var at, sizeAt := LayoutOf(fields);
    var iter := new FieldIter(fields, 0, at, sizeAt);
    ghost var seen;
    ok, r, seen := DecodeRounds(stream, iter, words, m);
    if !ok { return; }
    var count := CountRequired(iter);
    SeenBelowCount(fields, old(stream.Rest()), Progress(m, {}));
    ok := CheckRequired(words, count, seen);
  }

  lemma NothingSeen(words: seq<nat>)
    requires words == [0, 0]
    ensures Holds(words, {})
  {
    forall k | 0 <= k < 32 ensures !Bit(words[0], k) && !Bit(words[1], k) { BitOfZero(k); }
  }

  /** Only positions of required fields are ever marked. */
  lemma {:induction false} SeenBelowCount(fields: seq<Field>, s: seq<byte>, p: Progress)
    requires DecLoop(fields, s, p).Some? && forall k :: k in p.seen ==> k < ReqCount(fields)
    ensures forall k :: k in DecLoop(fields, s, p).value.0.seen ==> k < ReqCount(fields)
    decreases |s|
  {
    hide DecField, SkipField, DecodeTag;
    if s != [] && DecRecord(fields, s, p).Next? {
      var r := DecRecord(fields, s, p);
      var i := Find(fields, DecodeTag(s).tag);
      if i.Some? { RequiredIndex(fields, i.value); }
      SeenBelowCount(fields, r.rest, r.p);
    }
  }

  /** pb_decode: defaults first. */
  method DecodeMessage(stream: IStream, fields: seq<Field>) returns (ok: bool, r: Struct)
    requires stream.Valid() && Decodable(fields)
    modifies stream
    ensures stream.Valid()
    ensures ok <==> Decode(fields, old(stream.Rest())).Some?
    ensures ok ==> r == Decode(fields, old(stream.Rest())).value
  {
    ok, r := DecodeInto(stream, fields, Defaults(fields));
  }
}
