/** pb_encode.c as it runs: an output stream that is updated in place, a sizing
    stream that only counts, and submessages encoded twice. Every method is
    proved to emit exactly the bytes of PbModel, in both kinds of stream, so the
    sizing pass always predicts the writing pass. */
module PbEncoder {
  import opened Wrappers
  import opened Bytes
  import opened PbWire
  import opened PbModel
  import opened PbIter

  datatype Error = NoError | StreamFull | ArrayMaxSize | BytesSize | InvalidDataSize

  /** pb_ostream_t over a memory buffer, or without a callback for sizing. */
  class OStream {
    const sizing: bool
    const buf: array<byte>
    var state: nat
    var maxSize: nat
    var bytesWritten: nat
    var err: Error

    /** The buffer has room for what max_size still allows. */
    ghost predicate Valid()
      reads this
    {
      !sizing ==> bytesWritten <= maxSize && state + (maxSize - bytesWritten) <= buf.Length
    }

    /** PB_OSTREAM_SIZING. */
    constructor Sizing()
      ensures Valid() && sizing && bytesWritten == 0 && err == NoError
      ensures fresh(buf)
    {
      sizing, state, maxSize, bytesWritten, err := true, 0, 0, 0, NoError;
      buf := new byte[0];
    }

    /** pb_ostream_from_buffer, for the part of a buffer from state on. */
    constructor FromBuffer(buf: array<byte>, state: nat, maxSize: nat)
      requires state + maxSize <= buf.Length
      ensures Valid() && !sizing && bytesWritten == 0 && err == NoError
      ensures this.buf == buf && this.state == state && this.maxSize == maxSize
    {
      sizing, this.buf, this.state, this.maxSize, bytesWritten, err := false, buf, state, maxSize, 0, NoError;
    }

    /** What a call that should emit enc did: it succeeded exactly if enc can be
        encoded and fits; then the bytes were counted and, unless sizing, stored
        right after what was there. */
    twostate predicate Emitted(new enc: Option<seq<byte>>, ok: bool)
      requires old(Valid())
      reads this, buf
    {
      && Valid() && maxSize == old(maxSize)
      && (ok <==> enc.Some? && (sizing || old(bytesWritten) + |enc.value| <= maxSize))
      && (ok ==> bytesWritten == old(bytesWritten) + |enc.value|)
      && old(bytesWritten) <= bytesWritten
      && (!sizing ==> state == old(state) + (bytesWritten - old(bytesWritten)))
      && (!sizing ==> buf[..old(state)] == old(buf[..state]))
      && (!sizing && ok ==> buf[old(state)..state] == enc.value)
      && (ok && old(err) == NoError ==> err == NoError)
    }

    /** PB_RETURN_ERROR: keeps the first error. */
    method Fail(e: Error)
      modifies this`err
      ensures err == if old(err) == NoError then e else old(err)
    {
      if err == NoError { err := e; }
    }

    /** pb_write. */
    method Write(data: seq<byte>) returns (ok: bool)
      requires Valid()
      modifies this, buf
      ensures Emitted(Some(data), ok)
      ensures !ok ==> state == old(state) && bytesWritten == old(bytesWritten) && buf[..] == old(buf[..])
    {
      if !sizing {
        if bytesWritten + |data| > maxSize {
          Fail(StreamFull);
          return false;
        }
        BufWrite(data);
      }
      bytesWritten := bytesWritten + |data|;
      return true;
    }

    /** buf_write. */
    method BufWrite(data: seq<byte>)
      requires state + |data| <= buf.Length
      modifies this`state, buf
      ensures state == old(state) + |data|
      ensures buf[..old(state)] == old(buf[..state]) && buf[old(state)..state] == data
    {
      var dest := state;
      state := dest + |data|;
      for i := 0 to |data|
        invariant state == dest + |data|
        invariant buf[..dest] == old(buf[..state])
        invariant buf[dest..dest + i] == data[..i]
      {
        buf[dest + i] := data[i];
        assert buf[dest..dest + i + 1] == data[..i + 1];
      }
      assert data[..|data|] == data;
    }

    /** pb_write(stream, NULL, size) on a sizing stream. */
    method AddSize(size: nat)
      requires Valid() && sizing
      modifies this`bytesWritten
      ensures Valid() && bytesWritten == old(bytesWritten) + size
    {
      bytesWritten := bytesWritten + size;
    }
  }

  // ----- what the input must be -----

  /** Numbers within 64 bits and sizes within size_t, as C's integer types have
      them; and no union in a proto3 submessage. */
  predicate FitsValue(f: Field, v: Value)
    decreases f, 0
  {
    match f.ltype
    case LSVarint => -TWO63 <= NumOf(v) < TWO63
    case LSubmessage => Fits(f.sub, StructOf(v)) && SizeFits(EncFields(f.sub, StructOf(v)))
    case LBytes | LString | LFixedBytes => |BytesOf(v)| < TWO64
    case _ => true
  }

  predicate SizeFits(enc: Option<seq<byte>>) { enc.Some? ==> |enc.value| < TWO64 }

  predicate FitsMember(f: Field, m: Struct)
    decreases f, 1
  {
    CheckKnown(f) && FitsValue(f, ValueAt(f, m)) && SizeFits(EncItems(f, ItemsAt(f, m), false))
    && forall v :: v in ItemsAt(f, m) ==> FitsValue(f, v)
  }

  predicate Fits(fields: seq<Field>, m: Struct)
    decreases fields, 2
  {
    Iterable(fields) && forall i :: 0 <= i < |fields| ==> FitsMember(fields[i], m) && fields[i].tag < TWO32
  }

  // ----- scalars -----

  lemma VarintStep(was: seq<byte>, u: nat)
    requires 0 < u < TWO64
    ensures u >= 128 ==> was + Varint(u) == (was + [128 + u % 128]) + Varint(u / 128)
    ensures u >= 128 ==> |Varint(u)| == 1 + |Varint(u / 128)|
    ensures u < 128 ==> Varint(u) == [u] && u % 128 == u
  {
  }

  /** pb_encode_varint: the loop fills buffer[10] and clears the last top bit. */
  method EncodeVarint(stream: OStream, value: nat) returns (ok: bool)
    requires stream.Valid() && value < TWO64
    modifies stream, stream.buf
    ensures stream.Emitted(Some(Varint(value)), ok)
  {
    if value <= 0x7F {
      ok := stream.Write([value]);
      return;
    }
    var buffer := new byte[10](_ => 0);
    var v, i := value, 0;
    VarintMinimal(value, 10);
    Pow128Table();
    hide Varint;
    while v > 0
      invariant 0 <= i && 0 <= v < TWO64
      invariant v > 0 ==> i + |Varint(v)| <= 10 && Varint(value) == buffer[..i] + Varint(v)
      invariant v == 0 ==> 1 <= i <= 10 && buffer[i-1] >= 128 && Varint(value) == buffer[..i-1] + [buffer[i-1] - 128]
      modifies buffer
      decreases v
    {
      ghost var was := buffer[..i];
      ghost var u := v;
      buffer[i] := v % 128 + 128;
      v := v / 128;
      i := i + 1;
      assert buffer[..i-1] == was && buffer[..i] == was + [128 + u % 128];
      VarintStep(was, u);
    }
    buffer[i-1] := buffer[i-1] - 128;
    assert buffer[..i] == buffer[..i-1] + [buffer[i-1]];
    ok := stream.Write(buffer[..i]);
  }

  /** pb_encode_tag. */
  method EncodeTag(stream: OStream, wireType: nat, tag: nat) returns (ok: bool)
    requires stream.Valid() && wireType < 8 && tag < TWO32
    modifies stream, stream.buf
    ensures stream.Emitted(Some(Tag(wireType, tag)), ok)
  {
    ok := EncodeVarint(stream, 8 * tag + wireType);
  }

  /** pb_encode_string. */
  method EncodeString(stream: OStream, data: seq<byte>) returns (ok: bool)
    requires stream.Valid() && |data| < TWO64
    modifies stream, stream.buf
    ensures stream.Emitted(Some(Prefixed(data)), ok)
  {
    ok := EncodeVarint(stream, |data|);
    if !ok { return; }
    label mid:
    ok := stream.Write(data);
  }

  /** The counting loop of pb_enc_string. */
  method StringLength(data: seq<byte>) returns (size: nat)
    ensures size <= |data| && data[..size] == UpToNul(data)
  {
    size := 0;
    while size < |data| && data[size] != 0
      invariant 0 <= size <= |data|
      invariant UpToNul(data) == data[..size] + UpToNul(data[size..])
    {
      assert data[..size] + [data[size]] == data[..size + 1];
      assert data[size..][1..] == data[size + 1..];
      assert data[..size] + ([data[size]] + UpToNul(data[size + 1..])) == data[..size + 1] + UpToNul(data[size + 1..]);
      size := size + 1;
    }
    assert data[..size] + [] == data[..size];
  }

  // ----- values, fields, messages -----

  method EncodeNumber(stream: OStream, f: Field, v: Value) returns (ok: bool)
    requires stream.Valid() && Packable(f.ltype) && FitsValue(f, v)
    modifies stream, stream.buf
    ensures stream.Emitted(EncValue(f, v), ok)
  {
    match f.ltype
    case LVarint | LUVarint =>
      if !IntSize(f.dataSize) { stream.Fail(InvalidDataSize); return false; }
      ok := EncodeVarint(stream, ToU64(NumOf(v)));
    case LSVarint =>
      if !IntSize(f.dataSize) { stream.Fail(InvalidDataSize); return false; }
      ok := EncodeVarint(stream, ZigZag(NumOf(v)));
    case LFixed32 => ok := stream.Write(LittleEndian(NumOf(v) % TWO32, 4));
    case LFixed64 => ok := stream.Write(LittleEndian(ToU64(NumOf(v)), 8));
  }

  /** The encoder functions PB_ENCODERS holds. */
  method EncodeValue(stream: OStream, f: Field, v: Value) returns (ok: bool)
    requires stream.Valid() && FitsValue(f, v)
    modifies stream, stream.buf
    ensures stream.Emitted(EncValue(f, v), ok)
    decreases f, 0
  {
    if Packable(f.ltype) {
      ok := EncodeNumber(stream, f, v);
    } else {
      match f.ltype
      case LBytes =>
        if |BytesOf(v)| + BYTES_HEADER > f.dataSize { stream.Fail(BytesSize); return false; }
        ok := EncodeString(stream, BytesOf(v));
      case LString =>
        var size := StringLength(BytesOf(v));
        ok := EncodeString(stream, BytesOf(v)[..size]);
      case LFixedBytes => ok := EncodeString(stream, BytesOf(v));
      case LSubmessage => ok := EncodeSubmessage(stream, f.sub, StructOf(v));
    }
  }

  lemma Written(buf: seq<byte>, from: nat, mid: nat, to: nat, front: seq<byte>, back: seq<byte>)
    requires from <= mid <= to <= |buf| && buf[..mid][from..] == front && buf[mid..to] == back
    ensures buf[from..to] == front + back
  {
  }

  /** More bytes written after some, which stay as they were. */
  lemma WrittenAfter(before: seq<byte>, after: seq<byte>, from: nat, mid: nat, to: nat, front: seq<byte>,
                     back: seq<byte>, sizing: bool)
    requires !sizing ==> from <= mid <= to <= |after| == |before| && after[..mid] == before[..mid]
    requires !sizing ==> before[from..mid] == front && after[mid..to] == back
    ensures !sizing ==> after[from..to] == front + back && after[..from] == before[..from]
  {
    if !sizing {
      assert after[..mid][from..] == before[..mid][from..];
      assert after[..mid][..from] == before[..mid][..from];
    }
  }

  /** pb_encode_submessage: a sizing pass, the length, and then a second pass
      through a substream that may not write more than the first one counted.
      The two always agree, so "submsg size changed" never fires. */
  method EncodeSubmessage(stream: OStream, fields: seq<Field>, m: Struct) returns (ok: bool)
    requires stream.Valid() && Fits(fields, m) && SizeFits(EncFields(fields, m))
    modifies stream, stream.buf
    ensures stream.Emitted(match EncFields(fields, m) case None => None case Some(s) => Some(Prefixed(s)), ok)
    decreases fields, 4
  {
    hide EncFields, Fits, Varint;
    var sizer := new OStream.Sizing();
    ok := EncodeMessage(sizer, fields, m);
    if !ok {
      stream.err := sizer.err;
      return false;
    }
    var size := sizer.bytesWritten;
    ok := EncodeVarint(stream, size);
    if !ok { return false; }
    if stream.sizing {
      stream.AddSize(size);
      return true;
    }
    if stream.bytesWritten + size > stream.maxSize {
      stream.Fail(StreamFull);
      return false;
    }
    ghost var tail, before := stream.state, stream.buf[..stream.state];
    assert before[old(stream.state)..] == Varint(size);
    var substream := new OStream.FromBuffer(stream.buf, stream.state, size);
    ok := EncodeMessage(substream, fields, m);
    assert stream.buf[..tail] == before && before[..old(stream.state)] == stream.buf[..old(stream.state)];
    if ok {
      Written(stream.buf[..], old(stream.state), tail, substream.state, Varint(size), EncFields(fields, m).value);
    }
    stream.bytesWritten := stream.bytesWritten + substream.bytesWritten;
    stream.state := substream.state;
    stream.err := substream.err;
    if substream.bytesWritten != size {
      assert false;
    }
  }

  /** EncTagged: pb_encode_tag_for_field and the value. */
  method EncodeTagged(stream: OStream, f: Field, v: Value) returns (ok: bool)
    requires stream.Valid() && FitsValue(f, v) && f.tag < TWO32
    modifies stream, stream.buf
    ensures stream.Emitted(EncTagged(f, v), ok)
    decreases f, 1
  {
    hide EncValue, Tag, FitsValue;
    ok := EncodeTag(stream, WireType(f.ltype), f.tag);
    if !ok { return; }
    ok := EncodeValue(stream, f, v);
  }

  /** What has been emitted so far, followed by what is still to come. */
  function Append(done: seq<byte>, rest: Option<seq<byte>>): Option<seq<byte>> {
    match rest case None => None case Some(s) => Some(done + s)
  }

  lemma AppendsNothing(rest: Option<seq<byte>>)
    ensures Append([], rest) == rest
  {
    if rest.Some? { assert [] + rest.value == rest.value; }
  }

  lemma AppendsTwice(a: seq<byte>, b: seq<byte>, rest: Option<seq<byte>>)
    ensures Append(a, Append(b, rest)) == Append(a + b, rest)
  {
    if rest.Some? { assert a + (b + rest.value) == (a + b) + rest.value; }
  }

  /** The item loops of encode_array. */
  method EncodeItems(stream: OStream, f: Field, items: seq<Value>, tagged: bool) returns (ok: bool)
    requires stream.Valid() && f.tag < TWO32 && forall v :: v in items ==> FitsValue(f, v)
    modifies stream, stream.buf
    ensures stream.Emitted(EncItems(f, items, tagged), ok)
    decreases f, 2, 0
  {
    hide EncValue, EncTagged, FitsValue;
    ghost var done: seq<byte> := [];
    assert items[0..] == items;
    AppendsNothing(EncItems(f, items, tagged));
    for i := 0 to |items|
      invariant stream.Valid() && stream.Emitted(Some(done), true)
      invariant EncItems(f, items, tagged)
             == Append(done, EncItems(f, items[i..], tagged))
    {
      assert items[i..][0] == items[i] && items[i..][1..] == items[i+1..];
      ghost var enc := if tagged then EncTagged(f, items[i]) else EncValue(f, items[i]);
      ghost var tail, before := stream.state, stream.buf[..];
      if tagged { ok := EncodeTagged(stream, f, items[i]); } else { ok := EncodeValue(stream, f, items[i]); }
      if !ok { return; }
      WrittenAfter(before, stream.buf[..], old(stream.state), tail, stream.state, done, enc.value, stream.sizing);
      AppendsTwice(done, enc.value, EncItems(f, items[i+1..], tagged));
      done := done + enc.value;
    }
    ok := true;
    assert done + [] == done;
  }

  /** The packed branch of encode_array: the length prefix is computed in
      advance, by a formula or by a sizing stream. */
  method EncodePacked(stream: OStream, f: Field, items: seq<Value>) returns (ok: bool)
    requires stream.Valid() && f.tag < TWO32 && Packable(f.ltype) && forall v :: v in items ==> FitsValue(f, v)
    requires SizeFits(EncItems(f, items, false))
    modifies stream, stream.buf
    ensures stream.Emitted(match EncItems(f, items, false)
                           case None => None
                           case Some(s) => Some(Tag(WT_STRING, f.tag) + Prefixed(s)), ok)
    decreases f, 3, 0
  {
    hide EncItems, FitsValue, Tag, Varint;
    ok := EncodeTag(stream, WT_STRING, f.tag);
    if !ok { return; }
    var counted, size := PackedSize(f, items);
    if !counted { return false; }
    ok := EncodeVarint(stream, size);
    if !ok { return; }
    if stream.sizing {
      stream.AddSize(size);
      return true;
    }
    ghost var tail, body := stream.state, EncItems(f, items, false).value;
    ghost var before := stream.buf[..tail];
    assert before[old(stream.state)..] == Tag(WT_STRING, f.tag) + Varint(|body|);
    ok := EncodeItems(stream, f, items, false);
    assert stream.buf[..tail] == before && before[..old(stream.state)] == stream.buf[..old(stream.state)];
    if ok {
      Written(stream.buf[..], old(stream.state), tail, stream.state, Tag(WT_STRING, f.tag) + Varint(|body|), body);
      assert Tag(WT_STRING, f.tag) + Varint(|body|) + body == Tag(WT_STRING, f.tag) + Prefixed(body);
    }
  }

  /** The total size of a packed array. */
  method PackedSize(f: Field, items: seq<Value>) returns (ok: bool, size: nat)
    requires f.tag < TWO32 && forall v :: v in items ==> FitsValue(f, v)
    ensures ok <==> EncItems(f, items, false).Some?
    ensures ok ==> size == |EncItems(f, items, false).value|
    decreases f, 2, 1
  {
    hide EncItems, FitsValue;
    if f.ltype.LFixed32? {
      size := 4 * |items|;
      FixedItemsSize(f, items);
      ok := true;
    } else if f.ltype.LFixed64? {
      size := 8 * |items|;
      FixedItemsSize(f, items);
      ok := true;
    } else {
      var sizer := new OStream.Sizing();
      ok := EncodeItems(sizer, f, items, false);
      size := sizer.bytesWritten;
    }
  }

  /** encode_array. */
  method EncodeArray(stream: OStream, f: Field, items: seq<Value>) returns (ok: bool)
    requires stream.Valid() && f.tag < TWO32 && forall v :: v in items ==> FitsValue(f, v)
    requires SizeFits(EncItems(f, items, false))
    modifies stream, stream.buf
    ensures stream.Emitted(EncArray(f, items), ok)
    decreases f, 3, 1
  {
    hide EncItems, FitsValue, Tag, Varint;
    if items == [] { return true; }
    if |items| > f.arraySize {
      stream.Fail(ArrayMaxSize);
      return false;
    }
    if Packable(f.ltype) {
      ok := EncodePacked(stream, f, items);
    } else {
      ok := EncodeItems(stream, f, items, true);
    }
  }

  /** The shortcut for fixed-width arrays counts what the loop would write. */
  lemma {:induction false} FixedItemsSize(f: Field, items: seq<Value>)
    requires f.ltype.LFixed32? || f.ltype.LFixed64?
    ensures EncItems(f, items, false).Some?
    ensures |EncItems(f, items, false).value| == |items| * if f.ltype.LFixed32? then 4 else 8
  {
    hide LittleEndian;
    if items != [] { FixedItemsSize(f, items[1..]); }
  }

  /** pb_check_proto3_default_value, for static fields. */
  method CheckProto3Default(f: Field, v: Value) returns (isDefault: bool)
    requires FitsValue(f, v)
    ensures isDefault <==> IsProto3Default(f, v)
    decreases f
  {
    match f.ltype
    case LBytes => return |BytesOf(v)| == 0;
    case LString => return BytesOf(v) == [] || BytesOf(v)[0] == 0;
    case LFixedBytes => return f.dataSize == 0;
    case LSubmessage => isDefault := CheckFields(f.sub, StructOf(v));
    case _ => return NumOf(v) == 0;
  }

  /** Its loop over the fields of a submessage. */
  method CheckFields(fields: seq<Field>, m: Struct) returns (isDefault: bool)
    requires Fits(fields, m)
    ensures isDefault <==> LooksDefault(fields, m)
    decreases fields
  {
    hide FitsValue, IsProto3Default, LaidOut;
    if fields == [] { return true; }
    ghost var at, sizeAt := LayoutOf(fields);
    var iter := new FieldIter(fields, 0, at, sizeAt);
    var more := true;
    while more
      invariant iter.Valid() && iter.fields == fields && fresh(iter) && (more ==> iter.pos < |fields|)
      invariant forall k :: 0 <= k < (if more then iter.pos else |fields|) ==> SlotDefault(fields[k], m)
      decreases if more then |fields| - iter.pos else 0
    {
      var f := iter.Current();
      assert FitsMember(f, m);
      isDefault := CheckProto3Default(f, FirstSlot(f, m));
      if !isDefault { return false; }
      more := iter.Next();
    }
    isDefault := true;
  }

  /** encode_basic_field for static fields. */
  method EncodeField(stream: OStream, f: Field, m: Struct) returns (ok: bool)
    requires stream.Valid() && FitsMember(f, m) && f.tag < TWO32
    modifies stream, stream.buf
    ensures stream.Emitted(EncField(f, m), ok)
    decreases f, 4
  {
    hide EncTagged, EncArray, FitsValue;
    match f.htype
    case Required => ok := EncodeTagged(stream, f, ValueAt(f, m));
    case Optional =>
      if !HasAt(f, m) { return true; }
      ok := EncodeTagged(stream, f, ValueAt(f, m));
    case Singular =>
      var isDefault := CheckProto3Default(f, ValueAt(f, m));
      if isDefault { return true; }
      ok := EncodeTagged(stream, f, ValueAt(f, m));
    case Repeated => ok := EncodeArray(stream, f, ItemsAt(f, m));
    case Oneof =>
      if WhichAt(f, m) != f.tag { return true; }
      ok := EncodeTagged(stream, f, ValueAt(f, m));
  }

  lemma EncodingEnds(m: Struct)
    ensures EncFields([], m) == Some([])
  {
  }

  lemma EncodingStep(fields: seq<Field>, i: nat, m: Struct, done: seq<byte>)
    requires i < |fields|
    ensures Append(done, EncFields(fields[i..], m))
         == match EncField(fields[i], m)
            case None => None
            case Some(s) => Append(done + s, EncFields(if i + 1 < |fields| then fields[i+1..] else [], m))
  {
    hide EncField;
    assert fields[i..][0] == fields[i] && fields[i..][1..] == fields[i+1..];
    var s := EncField(fields[i], m);
    if s.Some? { AppendsTwice(done, s.value, EncFields(fields[i+1..], m)); }
  }

  /** The loop of pb_encode, from the first field on. */
  method EncodeAll(stream: OStream, iter: FieldIter, m: Struct) returns (ok: bool)
    requires stream.Valid() && Fits(iter.fields, m) && iter.Valid() && iter.pos == 0 && iter.fields != []
    modifies iter, stream, stream.buf
    ensures stream.Emitted(EncFields(iter.fields, m), ok)
    decreases iter.fields, 2
  {
    hide EncField, FitsMember, EncFields, LaidOut, Iterable;
    ghost var done: seq<byte> := [];
    assert iter.fields[0..] == iter.fields;
    AppendsNothing(EncFields(iter.fields, m));
    EncodingEnds(m);
    var more := true;
    while more
      invariant iter.Valid() && (more ==> iter.pos < |iter.fields|)
      invariant stream.Valid() && stream.Emitted(Some(done), true)
      invariant EncFields(iter.fields, m) == Append(done, EncFields(if more then iter.fields[iter.pos..] else [], m))
      decreases if more then |iter.fields| - iter.pos else 0
    {
      ghost var i := iter.pos;
      EncodingStep(iter.fields, i, m, done);
      ghost var tail, before := stream.state, stream.buf[..];
      ok := EncodeField(stream, iter.Current(), m);
      if !ok { return; }
      ghost var enc := EncField(iter.fields[i], m).value;
      WrittenAfter(before, stream.buf[..], old(stream.state), tail, stream.state, done, enc, stream.sizing);
      done := done + enc;
      more := iter.Next();
    }
    ok := true;
    assert done + [] == done;
  }

  /** pb_encode: emits the message, in a sizing stream and in a writing one. */
  method EncodeMessage(stream: OStream, fields: seq<Field>, m: Struct) returns (ok: bool)
    requires stream.Valid() && Fits(fields, m)
    modifies stream, stream.buf
    ensures stream.Emitted(EncFields(fields, m), ok)
    decreases fields, 3
  {
    if fields == [] { return true; }
    ghost var at, sizeAt := LayoutOf(fields);
    var iter := new FieldIter(fields, 0, at, sizeAt);
    ok := EncodeAll(stream, iter, m);
  }

  /** pb_get_encoded_size. */
  method GetEncodedSize(fields: seq<Field>, m: Struct) returns (ok: bool, size: nat)
    requires Fits(fields, m)
    ensures ok <==> EncFields(fields, m).Some?
    ensures ok ==> size == |EncFields(fields, m).value|
  {
    var stream := new OStream.Sizing();
    ok := EncodeMessage(stream, fields, m);
    size := stream.bytesWritten;
  }

  /** A fresh buffer takes an encodable message exactly if it is as long as
      pb_get_encoded_size says, and then holds exactly its bytes. */
  method EncodeToBuffer(buf: array<byte>, fields: seq<Field>, m: Struct) returns (ok: bool, written: nat,
                        predicted: nat)
    requires Fits(fields, m) && EncFields(fields, m).Some?
    modifies buf
    ensures predicted == |EncFields(fields, m).value| && (ok <==> predicted <= buf.Length)
    ensures ok ==> written == predicted && buf[..written] == EncFields(fields, m).value
  {
    var sized;
    sized, predicted := GetEncodedSize(fields, m);
    var stream := new OStream.FromBuffer(buf, 0, buf.Length);
    ok := EncodeMessage(stream, fields, m);
    written := stream.bytesWritten;
  }
}
