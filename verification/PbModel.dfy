/** nanopb's descriptor-driven printer and parser as functions on bytes and
    message values: what pb_encode.c writes and what pb_decode.c stores. The
    classes in PbEncoder and PbDecoder are proved to compute these functions.

    A message struct is a map from member numbers to members; the fields of a
    oneof share one member. An int or fixed value is its number, a char array is
    its contents up to its end or terminator. */
module PbModel {
  import opened Wrappers
  import opened Bytes
  import opened PbWire

  datatype LType = LVarint | LUVarint | LSVarint | LFixed32 | LFixed64
                 | LBytes | LString | LSubmessage | LFixedBytes

  /** Optional has a has_ member; Singular is the proto3 form without one. */
  datatype HType = Required | Optional | Singular | Repeated | Oneof

  /** One pb_field_t. sub is the submessage's descriptor, dflt the default value;
      member numbers the struct member that the offsets lead to. */
  datatype Field = Field(tag: nat, ltype: LType, htype: HType, dataOffset: nat, sizeOffset: int,
                         dataSize: nat, arraySize: nat, member: nat, sub: seq<Field>, dflt: Value)

  /** PB_SIZE_MAX, which marks a later field of a union in data_offset. */
  const SIZE_MAX: nat := 0xFFFF_FFFF

  /** A later field of a oneof, at the same place as the one before it. */
  predicate UnionSibling(prev: Field, f: Field) {
    prev.htype.Oneof? && f.htype.Oneof? && f.dataOffset == SIZE_MAX
  }

  /** What the field iterator relies on: only the terminator has a tag of 0, and
      the fields of a union share their which_ member. */
  predicate Iterable(fields: seq<Field>) {
    (forall i :: 0 <= i < |fields| ==> fields[i].tag >= 1)
    && forall i :: 0 < i < |fields| && UnionSibling(fields[i-1], fields[i]) ==>
                     fields[i].sizeOffset == fields[i-1].sizeOffset
  }

  datatype Value = Num(n: int) | Blob(data: seq<byte>) | Msg(members: Struct)

  /** Union's which is the which_ member: 0 when nothing is selected. */
  datatype Member = One(v: Value) | Opt(has: bool, v: Value) | Rep(items: seq<Value>) | Union(which: nat, v: Value)

  type Struct = map<nat, Member>

  const MAX_REQUIRED: nat := 64
  /** offsetof(pb_bytes_array_t, bytes) under PB_FIELD_32BIT. */
  const BYTES_HEADER: nat := 4

  predicate Packable(t: LType) { t.LVarint? || t.LUVarint? || t.LSVarint? || t.LFixed32? || t.LFixed64? }

  predicate IntSize(n: nat) { n == 1 || n == 2 || n == 4 || n == 8 }

  // ----- reading a member that may be of the wrong kind -----

  function NumOf(v: Value): int { if v.Num? then v.n else 0 }
  function BytesOf(v: Value): seq<byte> { if v.Blob? then v.data else [] }
  function StructOf(v: Value): Struct { if v.Msg? then v.members else map[] }

  function MemberOf(f: Field, m: Struct): Member { if f.member in m then m[f.member] else One(Num(0)) }
  function ValueAt(f: Field, m: Struct): Value { var s := MemberOf(f, m); if s.Rep? then Num(0) else s.v }
  function ItemsAt(f: Field, m: Struct): seq<Value> { var s := MemberOf(f, m); if s.Rep? then s.items else [] }
  predicate HasAt(f: Field, m: Struct) { var s := MemberOf(f, m); s.Opt? && s.has }
  function WhichAt(f: Field, m: Struct): nat { var s := MemberOf(f, m); if s.Union? then s.which else 0 }

  // ----- pb_encode.c -----

  /** The characters before the first NUL: what pb_enc_string counts. */
  function UpToNul(s: seq<byte>): (r: seq<byte>)
    ensures |r| <= |s|
  {
    if s == [] || s[0] == 0 then [] else [s[0]] + UpToNul(s[1..])
  }

  function WireType(t: LType): nat {
    match t
    case LVarint | LUVarint | LSVarint => WT_VARINT
    case LFixed32 => WT_32BIT
    case LFixed64 => WT_64BIT
    case _ => WT_STRING
  }

  /** A conversion to int64_t's range and then to uint64_t. */
  function ToU64(n: int): nat { n % TWO64 }

  function Prefixed(s: seq<byte>): seq<byte> { Varint(|s|) + s }

  /** A value as the field's encoder function writes it; None where that
      function returns false. */
  function EncValue(f: Field, v: Value): Option<seq<byte>>
    decreases f, 0
  {
    match f.ltype
    case LVarint | LUVarint => if IntSize(f.dataSize) then Some(Varint(ToU64(NumOf(v)))) else None
    case LSVarint =>
      if IntSize(f.dataSize) && -TWO63 <= NumOf(v) < TWO63 then Some(Varint(ZigZag(NumOf(v)))) else None
    case LFixed32 => Some(LittleEndian(NumOf(v) % TWO32, 4))
    case LFixed64 => Some(LittleEndian(ToU64(NumOf(v)), 8))
    case LBytes => if |BytesOf(v)| + BYTES_HEADER > f.dataSize then None else Some(Prefixed(BytesOf(v)))
    case LString => Some(Prefixed(UpToNul(BytesOf(v))))
    case LSubmessage => (match EncFields(f.sub, StructOf(v)) case None => None case Some(s) => Some(Prefixed(s)))
    case LFixedBytes => Some(Prefixed(BytesOf(v)))
  }

  /** The field's tag and one value. */
  function EncTagged(f: Field, v: Value): Option<seq<byte>>
    decreases f, 1
  {
    match EncValue(f, v) case None => None case Some(s) => Some(Tag(WireType(f.ltype), f.tag) + s)
  }

  /** The items of a packed array, or each item with its own tag. */
  function EncItems(f: Field, items: seq<Value>, tagged: bool): Option<seq<byte>>
    decreases f, 2, |items|
  {
    if items == [] then Some([])
    else
      var first := if tagged then EncTagged(f, items[0]) else EncValue(f, items[0]);
      match first
      case None => None
      case Some(s) =>
        match EncItems(f, items[1..], tagged) case None => None case Some(rest) => Some(s + rest)
  }

  /** encode_array. */
  function EncArray(f: Field, items: seq<Value>): Option<seq<byte>>
    decreases f, 3
  {
    if items == [] then Some([])
    else if |items| > f.arraySize then None
    else if Packable(f.ltype) then
      match EncItems(f, items, false)
      case None => None
      case Some(s) => Some(Tag(WT_STRING, f.tag) + Prefixed(s))
    else EncItems(f, items, true)
  }

  /** pb_check_proto3_default_value. In a submessage it looks at every field's data,
      but not at has_ and count members: of an array at the first slot alone, which
      is taken to be zero when the array is empty. */
  predicate IsProto3Default(f: Field, v: Value)
    decreases f, 0
  {
    match f.ltype
    case LBytes => |BytesOf(v)| == 0
    case LString => UpToNul(BytesOf(v)) == []
    case LFixedBytes => f.dataSize == 0
    case LSubmessage => LooksDefault(f.sub, StructOf(v))
    case _ => NumOf(v) == 0
  }

  predicate LooksDefault(fields: seq<Field>, m: Struct)
    decreases fields, 2
  {
    forall i :: 0 <= i < |fields| ==> SlotDefault(fields[i], m)
  }

  predicate SlotDefault(f: Field, m: Struct)
    decreases f, 1
  {
    IsProto3Default(f, FirstSlot(f, m))
  }

  /** What is at the place that a field's data offset leads to. */
  function FirstSlot(f: Field, m: Struct): Value {
    if ItemsAt(f, m) != [] then ItemsAt(f, m)[0] else ValueAt(f, m)
  }

  /** No oneof at any level: what that check sees of a union depends on what other
      types make of its bytes. */
  predicate NoUnions(fields: seq<Field>)
    decreases fields
  {
    forall i :: 0 <= i < |fields| ==>
      !fields[i].htype.Oneof? && (fields[i].ltype.LSubmessage? ==> NoUnions(fields[i].sub))
  }

  /** The descriptors whose default check this model describes. */
  predicate CheckKnown(f: Field) { f.htype.Singular? && f.ltype.LSubmessage? ==> NoUnions(f.sub) }

  /** encode_basic_field. */
  function EncField(f: Field, m: Struct): Option<seq<byte>>
    decreases f, 4
  {
    match f.htype
    case Required => EncTagged(f, ValueAt(f, m))
    case Optional => if HasAt(f, m) then EncTagged(f, ValueAt(f, m)) else Some([])
    case Singular => if IsProto3Default(f, ValueAt(f, m)) then Some([]) else EncTagged(f, ValueAt(f, m))
    case Repeated => EncArray(f, ItemsAt(f, m))
    case Oneof => if WhichAt(f, m) == f.tag then EncTagged(f, ValueAt(f, m)) else Some([])
  }

  /** pb_encode: the fields in descriptor order. */
  function EncFields(fields: seq<Field>, m: Struct): Option<seq<byte>>
    decreases fields, 5
  {
    if fields == [] then Some([])
    else match EncField(fields[0], m)
      case None => None
      case Some(s) =>
        match EncFields(fields[1..], m) case None => None case Some(rest) => Some(s + rest)
  }

  // ----- defaults: pb_message_set_to_defaults -----

  function Defaults(fields: seq<Field>): Struct
    decreases fields, 1
  {
    if fields == [] then map[]
    else map[fields[0].member := DefaultMember(fields[0])] + Defaults(fields[1..])
  }

  function DefaultMember(f: Field): Member
    decreases f, 0
  {
    var v := if f.ltype.LSubmessage? then Msg(Defaults(f.sub)) else f.dflt;
    match f.htype
    case Required | Singular => One(v)
    case Optional => Opt(false, v)
    case Repeated => Rep([])
    case Oneof => Union(0, Num(0))
  }

  // ----- pb_decode.c -----

  /** The position of a tag's field, as pb_field_iter_find reports it. */
  function Find(fields: seq<Field>, tag: nat): (r: Option<nat>)
    ensures r.Some? ==> r.value < |fields| && fields[r.value].tag == tag
  {
    if fields == [] then None
    else if fields[0].tag == tag then Some(0)
    else match Find(fields[1..], tag) case None => None case Some(i) => Some(i + 1)
  }

  /** How many of the fields are required. */
  function ReqCount(fields: seq<Field>): (r: nat)
    ensures r <= |fields|
  {
    if fields == [] then 0
    else ReqCount(fields[..|fields|-1]) + if fields[|fields|-1].htype.Required? then 1 else 0
  }

  /** A two's complement integer of the given width in bits' value range. */
  function Signed(u: int, modulus: int): int
    requires modulus > 0
  {
    var r := u % modulus; if r >= modulus / 2 then r - modulus else r
  }

  function Modulus(dataSize: nat): int {
    match dataSize case 1 => 0x100 case 2 => 0x1_0000 case 4 => TWO32 case _ => TWO64
  }

  /** pb_dec_varint's, pb_dec_uvarint's and pb_dec_svarint's cast to the
      member's width: None where the value does not fit. */
  function Narrow(t: LType, dataSize: nat, u: nat): Option<int>
    requires u < TWO64
  {
    if !IntSize(dataSize) then None
    else match t
      case LUVarint => if u < Modulus(dataSize) then Some(u) else None
      case LSVarint =>
        var v := UnZigZag(u); if v == Signed(v, Modulus(dataSize)) then Some(v) else None
      case _ =>
        var v := if dataSize == 8 then Signed(u, TWO64) else Signed(u, TWO32);
        if v == Signed(v, Modulus(dataSize)) then Some(v) else None
  }

  /** A length-delimited value: its bytes and what follows. */
  function DecDelimited(s: seq<byte>): (r: Option<(seq<byte>, seq<byte>)>)
    ensures r.Some? ==> |r.value.0| + |r.value.1| < |s|
  {
    match DecodeVarint32(s)
    case None => None
    case Some((n, rest)) => if |rest| < n then None else Some((rest[..n], rest[n..]))
  }

  /** The struct a submessage is decoded into: array entries and oneof members
      are set to defaults first, other submessages are merged into. */
  function Start(f: Field, prior: Value): Struct {
    if f.htype.Repeated? || f.htype.Oneof? then Defaults(f.sub) else StructOf(prior)
  }

  /** The field's decoder function, storing over the value old; None where it
      returns false. */
  function DecValue(f: Field, s: seq<byte>, prior: Value): (r: Option<(Value, seq<byte>)>)
    ensures r.Some? ==> |r.value.1| <= |s|
    ensures r.Some? && f.ltype != LFixed32 && f.ltype != LFixed64 ==> |r.value.1| < |s|
    decreases |s|, 0
  {
    match f.ltype
    case LVarint | LUVarint | LSVarint =>
      (match DecodeVarint(s)
       case None => None
       case Some((u, rest)) =>
         match Narrow(f.ltype, f.dataSize, u) case None => None case Some(n) => Some((Num(n), rest)))
    case LFixed32 => if |s| < 4 then None else Some((Num(FromLittleEndian(s[..4])), s[4..]))
    case LFixed64 => if |s| < 8 then None else Some((Num(FromLittleEndian(s[..8])), s[8..]))
    case LBytes =>
      (match DecDelimited(s)
       case None => None
       case Some((d, rest)) => if |d| + BYTES_HEADER > f.dataSize then None else Some((Blob(d), rest)))
    case LString =>
      (match DecDelimited(s)
       case None => None
       case Some((d, rest)) => if |d| + 1 > f.dataSize then None else Some((Blob(d), rest)))
    case LFixedBytes =>
      (match DecDelimited(s)
       case None => None
       case Some((d, rest)) =>
         if d == [] then Some((Blob(Zeros(f.dataSize)), rest))
         else if |d| != f.dataSize then None else Some((Blob(d), rest)))
    case LSubmessage =>
      match DecDelimited(s)
      case None => None
      case Some((d, rest)) =>
        match DecMessage(f.sub, d, Start(f, prior)) case None => None case Some(r) => Some((Msg(r), rest))
  }

  /** The packed-array loop: items are appended until the substream is empty;
      None if an item fails or the array is full before then. */
  function DecPacked(f: Field, s: seq<byte>, items: seq<Value>): Option<seq<Value>>
    decreases |s|, 1
  {
    if s == [] then Some(items)
    else if |items| >= f.arraySize then None
    else match DecValue(f, s, Num(0))
      case None => None
      case Some((v, rest)) => if |rest| < |s| then DecPacked(f, rest, items + [v]) else None
  }

  /** decode_static_field. */
  function DecField(f: Field, wireType: nat, s: seq<byte>, m: Struct): (r: Option<(Struct, seq<byte>)>)
    ensures r.Some? ==> |r.value.1| <= |s|
    decreases |s|, 2
  {
    if f.htype.Repeated? then
      if wireType == WT_STRING && Packable(f.ltype) then
        match DecDelimited(s)
        case None => None
        case Some((d, rest)) =>
          match DecPacked(f, d, ItemsAt(f, m))
          case None => None
          case Some(items) => Some((m[f.member := Rep(items)], rest))
      else if |ItemsAt(f, m)| >= f.arraySize then None
      else match DecValue(f, s, Num(0))
        case None => None
        case Some((v, rest)) => Some((m[f.member := Rep(ItemsAt(f, m) + [v])], rest))
    else match DecValue(f, s, ValueAt(f, m))
      case None => None
      case Some((v, rest)) =>
        var member := match f.htype
          case Optional => Opt(true, v)
          case Oneof => Union(f.tag, v)
          case _ => One(v);
        Some((m[f.member := member], rest))
  }

  /** pb_skip_varint: a varint of any length. */
  function SkipVarint(s: seq<byte>): (r: Option<seq<byte>>)
    ensures r.Some? ==> |r.value| < |s|
  {
    match VarintLen(s) case None => None case Some(n) => Some(s[n..])
  }

  /** pb_skip_field. */
  function SkipField(wireType: nat, s: seq<byte>): (r: Option<seq<byte>>)
    ensures r.Some? ==> |r.value| <= |s|
  {
    if wireType == WT_VARINT then SkipVarint(s)
    else if wireType == WT_64BIT then if |s| < 8 then None else Some(s[8..])
    else if wireType == WT_STRING then
      match DecDelimited(s) case None => None case Some((_, rest)) => Some(rest)
    else if wireType == WT_32BIT then if |s| < 4 then None else Some(s[4..])
    else None
  }

  /** Where decoding stands between two fields: the struct and the positions,
      among the required fields, of those that occurred. */
  datatype Progress = Progress(m: Struct, seen: set<nat>)

  datatype Record = End(rest: seq<byte>) | Bad | Next(p: Progress, rest: seq<byte>)

  /** One round of pb_decode_noinit's loop. In an empty descriptor the
      terminator itself matches a tag of zero, and decoding it fails. */
  function DecRecord(fields: seq<Field>, s: seq<byte>, p: Progress): (r: Record)
    ensures r.Next? ==> |r.rest| < |s|
    ensures r.End? ==> |r.rest| <= |s|
    decreases |s|, 3
  {
    match DecodeTag(s)
    case TagEof(rest) => End(rest)
    case TagError => Bad
    case TagOk(wireType, tag, rest) =>
      match Find(fields, tag)
      case None =>
        if fields == [] && tag == 0 then Bad
        else (match SkipField(wireType, rest) case None => Bad case Some(rest') => Next(p, rest'))
      case Some(i) =>
        var k := ReqCount(fields[..i]);
        var seen := if fields[i].htype.Required? && k < MAX_REQUIRED then p.seen + {k} else p.seen;
        match DecField(fields[i], wireType, rest, p.m)
        case None => Bad
        case Some((m, rest')) => Next(Progress(m, seen), rest')
  }

  /** pb_decode_noinit's loop: the final state and the bytes left over. */
  function DecLoop(fields: seq<Field>, s: seq<byte>, p: Progress): (r: Option<(Progress, seq<byte>)>)
    ensures r.Some? ==> |r.value.1| <= |s|
    decreases |s|, 4
  {
    if s == [] then Some((p, []))
    else match DecRecord(fields, s, p)
      case End(rest) => Some((p, rest))
      case Bad => None
      case Next(p', rest) => DecLoop(fields, rest, p')
  }

  /** The check after the loop: every required field occurred. */
  predicate AllSeen(fields: seq<Field>, seen: set<nat>) {
    forall k :: 0 <= k < ReqCount(fields) ==> k in seen
  }

  /** pb_decode_noinit: the new struct, or None for failure. */
  function DecMessage(fields: seq<Field>, s: seq<byte>, m: Struct): Option<Struct>
    decreases |s|, 5
  {
    match DecLoop(fields, s, Progress(m, {}))
    case None => None
    case Some((p, _)) => if AllSeen(fields, p.seen) then Some(p.m) else None
  }

  /** pb_decode. */
  function Decode(fields: seq<Field>, s: seq<byte>): Option<Struct> {
    DecMessage(fields, s, Defaults(fields))
  }
}
