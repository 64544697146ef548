/** Decoding what pb_encode wrote. MergeFields says, member by member and without
    bytes, what the standard promises of a repeated parse ("Last One Wins"), and
    DecodeMerges proves the decoder does exactly that. Round trip and merging by
    concatenation are its consequences. */
module PbMerge {
  import opened Wrappers
  import Bits
  import opened Bytes
  import opened PbWire
  import opened PbModel

  // ----- well-formed descriptors and messages -----

  predicate UniqueTags(fields: seq<Field>) {
    forall i, j :: 0 <= i < j < |fields| ==> fields[i].tag != fields[j].tag
  }

  /** Members are disjoint, except that the fields of a oneof share theirs. */
  predicate SeparateMembers(fields: seq<Field>) {
    forall i, j :: 0 <= i < j < |fields| && fields[i].member == fields[j].member ==>
                     fields[i].htype.Oneof? && fields[j].htype.Oneof?
  }

  /** A descriptor as the nanopb generator emits it, for field numbers of the
      standard's range. The required-field counts are those whose final shift C
      defines (pb_decode.c:940-948). */
  predicate WellFormed(fields: seq<Field>)
    decreases fields, 1
  {
    && UniqueTags(fields) && SeparateMembers(fields) && Iterable(fields)
    && CountDefined(fields)
    && forall i :: 0 <= i < |fields| ==> WellFormedField(fields[i])
  }

  predicate CountDefined(fields: seq<Field>) { ReqCount(fields) < MAX_REQUIRED && ReqCount(fields) != 32 }

  predicate WellFormedField(f: Field)
    decreases f, 0
  {
    && 1 <= f.tag < 0x2000_0000
    && f.dataSize < TWO32
    && (f.ltype.LVarint? || f.ltype.LUVarint? || f.ltype.LSVarint? ==> IntSize(f.dataSize))
    && (f.ltype.LSubmessage? ==> WellFormed(f.sub)) && CheckKnown(f)
    && (f.htype.Singular? && !f.ltype.LSubmessage? ==>
          f.dflt == if Packable(f.ltype) then Num(0)
                    else if f.ltype.LFixedBytes? then Blob(Zeros(f.dataSize)) else Blob([]))
  }

  predicate ValidValue(f: Field, v: Value)
    decreases f, 0
  {
    match f.ltype
    case LVarint | LSVarint => v.Num? && -Modulus(f.dataSize) / 2 <= v.n < Modulus(f.dataSize) / 2
    case LUVarint => v.Num? && 0 <= v.n < Modulus(f.dataSize)
    case LFixed32 => v.Num? && 0 <= v.n < TWO32
    case LFixed64 => v.Num? && 0 <= v.n < TWO64
    case LBytes => v.Blob? && |v.data| + BYTES_HEADER <= f.dataSize
    case LString => v.Blob? && |UpToNul(v.data)| < f.dataSize
    case LFixedBytes => v.Blob? && |v.data| == f.dataSize
    case LSubmessage => v.Msg? && Valid(f.sub, v.members)
  }

  predicate ValidMember(f: Field, m: Struct)
    decreases f, 1
  {
    f.member in m &&
    match f.htype
    case Required | Singular => m[f.member].One? && ValidValue(f, m[f.member].v)
    case Optional => m[f.member].Opt? && (m[f.member].has ==> ValidValue(f, m[f.member].v))
    case Repeated => m[f.member].Rep? && |m[f.member].items| <= f.arraySize
                     && forall v :: v in m[f.member].items ==> ValidValue(f, v)
    case Oneof => m[f.member].Union? && (m[f.member].which == f.tag ==> ValidValue(f, m[f.member].v))
  }

  /** A struct whose set members the encoder accepts. */
  predicate Valid(fields: seq<Field>, m: Struct)
    decreases fields, 2
  {
    forall i :: 0 <= i < |fields| ==> ValidMember(fields[i], m)
  }

  // ----- what parsing b over m means -----

  function MergeValue(f: Field, prior: Value, v: Value): Option<Value>
    decreases f, 0
  {
    match f.ltype
    case LString => Some(Blob(UpToNul(BytesOf(v))))
    case LSubmessage =>
      (match MergeFields(f.sub, Start(f, prior), StructOf(v)) case None => None case Some(r) => Some(Msg(r)))
    case _ => Some(v)
  }

  /** Items are appended while there is room. */
  function MergeItems(f: Field, items: seq<Value>, more: seq<Value>): Option<seq<Value>>
    decreases f, 1, |more|
  {
    if more == [] then Some(items)
    else if |items| >= f.arraySize then None
    else match MergeValue(f, Num(0), more[0])
      case None => None
      case Some(v) => MergeItems(f, items + [v], more[1..])
  }

  function MergeField(f: Field, m: Struct, b: Struct): Option<Struct>
    decreases f, 2
  {
    if f.htype.Repeated? then
      if ItemsAt(f, b) == [] then Some(m)
      else match MergeItems(f, ItemsAt(f, m), ItemsAt(f, b))
        case None => None
        case Some(items) => Some(m[f.member := Rep(items)])
    else if !IsSet(f, b) then Some(m)
    else match MergeValue(f, ValueAt(f, m), ValueAt(f, b))
      case None => None
      case Some(v) => Some(m[f.member := Holding(f, v)])
  }

  /** Whether b has a value to contribute to a field that is not repeated. */
  predicate IsSet(f: Field, b: Struct) {
    match f.htype
    case Required => true
    case Optional => HasAt(f, b)
    case Singular => !IsProto3Default(f, ValueAt(f, b))
    case Oneof => WhichAt(f, b) == f.tag
    case Repeated => ItemsAt(f, b) != []
  }

  function Holding(f: Field, v: Value): Member {
    match f.htype case Optional => Opt(true, v) case Oneof => Union(f.tag, v) case _ => One(v)
  }

  function MergeFields(fields: seq<Field>, m: Struct, b: Struct): Option<Struct>
    decreases fields, 3
  {
    if fields == [] then Some(m)
    else match MergeField(fields[0], m, b)
      case None => None
      case Some(m') => MergeFields(fields[1..], m', b)
  }

  // ----- scalar values -----

  lemma SignedOf(n: int, u: int, m: int)
    requires m >= 2 && m % 2 == 0 && -m / 2 <= n < m / 2 && u % m == n % m
    ensures Signed(u, m) == n
  {
    if n < 0 { Bits.ModUnique(n, m, -1, n + m); } else { Bits.ModUnique(n, m, 0, n); }
  }

  lemma SignedInverts(n: int, dataSize: nat)
    requires IntSize(dataSize) && -Modulus(dataSize) / 2 <= n < Modulus(dataSize) / 2
    ensures Signed(n, Modulus(dataSize)) == n
    ensures Signed(ToU64(n), TWO64) == n
    ensures dataSize < 8 ==> Signed(ToU64(n), TWO32) == n
  {
    hide Signed;
    SignedOf(n, n, Modulus(dataSize));
    SignedOf(n, ToU64(n), TWO64);
    if dataSize < 8 {
      assert ToU64(n) == if n < 0 then n + TWO64 else n;
      assert (n + TWO64) % TWO32 == n % TWO32;
      SignedOf(n, ToU64(n), TWO32);
    }
  }

  /** Casting back to the member's width gives the number that was encoded. */
  lemma NarrowInverts(t: LType, dataSize: nat, n: int)
    requires IntSize(dataSize)
    requires t.LUVarint? ==> 0 <= n < Modulus(dataSize)
    requires !t.LUVarint? ==> -Modulus(dataSize) / 2 <= n < Modulus(dataSize) / 2
    ensures t.LSVarint? ==> 0 <= ZigZag(n) < TWO64 && Narrow(t, dataSize, ZigZag(n)) == Some(n)
    ensures !t.LSVarint? ==> Narrow(t, dataSize, ToU64(n)) == Some(n)
  {
    if !t.LUVarint? { SignedInverts(n, dataSize); }
    if t.LSVarint? { ZigZagBijection(n, 0); }
  }

  lemma DelimitedRoundTrip(d: seq<byte>, tail: seq<byte>)
    requires |d| < TWO32
    ensures DecDelimited(Prefixed(d) + tail) == Some((d, tail))
  {
    assert Prefixed(d) + tail == Varint(|d|) + (d + tail);
    Varint32RoundTrip(|d|, d + tail);
    assert (d + tail)[..|d|] == d && (d + tail)[|d|..] == tail;
  }

  lemma NumberDecodes(f: Field, prior: Value, v: Value, tail: seq<byte>)
    requires WellFormedField(f) && ValidValue(f, v) && Packable(f.ltype)
    ensures EncValue(f, v).Some?
    ensures DecValue(f, EncValue(f, v).value + tail, prior) == Some((v, tail))
  {
    hide LittleEndian, FromLittleEndian, Varint, ZigZag, DecodeVarint, Narrow, WellFormed, Valid;
    Pow256Table();
    match f.ltype
    case LVarint | LUVarint =>
      NarrowInverts(f.ltype, f.dataSize, v.n);
      VarintRoundTrip(ToU64(v.n), tail);
    case LSVarint =>
      NarrowInverts(f.ltype, f.dataSize, v.n);
      VarintRoundTrip(ZigZag(v.n), tail);
    case LFixed32 => FixedRoundTrip(v.n, 4, tail);
    case LFixed64 => FixedRoundTrip(v.n, 8, tail);
  }

  lemma BlobDecodes(f: Field, prior: Value, v: Value, tail: seq<byte>)
    requires WellFormedField(f) && ValidValue(f, v) && (f.ltype.LBytes? || f.ltype.LString? || f.ltype.LFixedBytes?)
    ensures EncValue(f, v).Some?
    ensures DecValue(f, EncValue(f, v).value + tail, prior) == Some((MergeValue(f, prior, v).value, tail))
  {
    if f.ltype.LString? {
      DelimitedRoundTrip(UpToNul(v.data), tail);
    } else {
      DelimitedRoundTrip(v.data, tail);
      if v.data == [] { assert Zeros(0) == []; }
    }
  }

  /** One encoded value, decoded over any prior value with anything after it. */
  lemma {:induction false} ValueDecodes(f: Field, prior: Value, v: Value, tail: seq<byte>)
    requires WellFormedField(f) && ValidValue(f, v)
    requires EncValue(f, v).Some? && |EncValue(f, v).value| < TWO32
    ensures DecValue(f, EncValue(f, v).value + tail, prior)
         == match MergeValue(f, prior, v) case None => None case Some(r) => Some((r, tail))
    decreases f, 0
  {
    if Packable(f.ltype) {
      NumberDecodes(f, prior, v, tail);
    } else if !f.ltype.LSubmessage? {
      BlobDecodes(f, prior, v, tail);
    } else {
      var d := EncFields(f.sub, v.members).value;
      DelimitedRoundTrip(d, tail);
      DecodeMerges(f.sub, Start(f, prior), v.members);
    }
  }

  /** The items of a packed array. */
  lemma {:induction false} PackedDecodes(f: Field, items: seq<Value>, more: seq<Value>)
    requires WellFormedField(f) && Packable(f.ltype)
    requires forall v :: v in more ==> ValidValue(f, v)
    requires EncItems(f, more, false).Some? && |EncItems(f, more, false).value| < TWO32
    ensures DecPacked(f, EncItems(f, more, false).value, items) == MergeItems(f, items, more)
    decreases f, 1, |more|
  {
    if more != [] {
      var s := EncValue(f, more[0]).value;
      var rest := EncItems(f, more[1..], false).value;
      ValueNonempty(f, more[0]);
      assert s + rest != [];
      if |items| < f.arraySize {
        ValueDecodes(f, Num(0), more[0], rest);
        PackedDecodes(f, items + [more[0]], more[1..]);
      }
    }
  }

  lemma ValueNonempty(f: Field, v: Value)
    requires EncValue(f, v).Some?
    ensures |EncValue(f, v).value| > 0
  {
  }

  /** What one field of a record leaves behind, when decoding goes on with tail. */
  function Continue(fields: seq<Field>, m: Option<Struct>, seen: set<nat>, tail: seq<byte>): Option<(Progress,
                    seq<byte>)> {
    match m
    case None => None
    case Some(m') => DecLoop(fields, tail, Progress(m', seen))
  }

  lemma {:induction false} FindUnique(fields: seq<Field>, i: nat)
    requires i < |fields| && UniqueTags(fields)
    ensures Find(fields, fields[i].tag) == Some(i)
  {
    if i > 0 {
      assert fields[0].tag != fields[i].tag;
      FindUnique(fields[1..], i - 1);
    }
  }

  /** The decoder's loop takes one round on a declared tag. */
  lemma DeclaredRound(fields: seq<Field>, i: nat, wireType: nat, s: seq<byte>, p: Progress)
    requires UniqueTags(fields) && CountDefined(fields) && i < |fields|
    requires wireType < 8 && 1 <= fields[i].tag < 0x2000_0000
    ensures DecLoop(fields, Tag(wireType, fields[i].tag) + s, p)
         == match DecField(fields[i], wireType, s, p.m)
            case None => None
            case Some((m, rest)) => DecLoop(fields, rest, Progress(m, SeenWith(fields, i, p.seen)))
  {
    hide DecField, Tag, DecodeTag;
    FindUnique(fields, i);
    RequiredIndex(fields, i);
    TagRoundTrip(wireType, fields[i].tag, s);
  }

  /** One tagged value: a single round of the decoder's loop. */
  lemma {:induction false} TaggedDecodes(fields: seq<Field>, i: nat, v: Value, p: Progress, tail: seq<byte>)
    requires WellFormed(fields) && i < |fields| && ValidValue(fields[i], v)
    requires EncTagged(fields[i], v).Some? && |EncTagged(fields[i], v).value| < TWO32
    requires fields[i].htype.Repeated? ==> !Packable(fields[i].ltype)
    ensures DecLoop(fields, EncTagged(fields[i], v).value + tail, p)
         == Continue(fields, StoreOne(fields[i], p.m, v), SeenWith(fields, i, p.seen), tail)
    decreases fields[i], 1
  {
    hide EncValue, DecValue, MergeValue, DecLoop, SeenWith, Find, Tag, ValidValue;
    var f := fields[i];
    var body := EncValue(f, v).value;
    assert EncTagged(f, v).value + tail == Tag(WireType(f.ltype), f.tag) + (body + tail);
    ValueDecodes(f, if f.htype.Repeated? then Num(0) else ValueAt(f, p.m), v, tail);
    DeclaredRound(fields, i, WireType(f.ltype), body + tail, p);
  }

  lemma {:induction false} RequiredIndex(fields: seq<Field>, i: nat)
    requires i < |fields|
    ensures ReqCount(fields[..i]) + (if fields[i].htype.Required? then 1 else 0)
            == ReqCount(fields[..i+1]) <= ReqCount(fields)
    decreases |fields| - i
  {
    assert fields[..i+1][..i] == fields[..i];
    if i + 1 < |fields| {
      RequiredIndex(fields, i + 1);
    } else {
      assert fields[..i+1] == fields;
    }
  }

  /** Storing one occurrence of a field that is not a packed array. */
  function StoreOne(f: Field, m: Struct, v: Value): Option<Struct> {
    if f.htype.Repeated? then
      if |ItemsAt(f, m)| >= f.arraySize then None
      else match MergeValue(f, Num(0), v)
        case None => None
        case Some(r) => Some(m[f.member := Rep(ItemsAt(f, m) + [r])])
    else match MergeValue(f, ValueAt(f, m), v)
      case None => None
      case Some(r) => Some(m[f.member := Holding(f, r)])
  }

  function SeenWith(fields: seq<Field>, i: nat, seen: set<nat>): set<nat>
    requires i < |fields|
  {
    if fields[i].htype.Required? then seen + {ReqCount(fields[..i])} else seen
  }

  /** Items each with their own tag. */
  lemma {:induction false} ItemsDecode(fields: seq<Field>, i: nat, more: seq<Value>, p: Progress, tail: seq<byte>)
    requires WellFormed(fields) && i < |fields| && fields[i].htype.Repeated? && !Packable(fields[i].ltype)
    requires forall v :: v in more ==> ValidValue(fields[i], v)
    requires EncItems(fields[i], more, true).Some? && |EncItems(fields[i], more, true).value| < TWO32
    requires more != []
    ensures DecLoop(fields, EncItems(fields[i], more, true).value + tail, p)
         == match MergeItems(fields[i], ItemsAt(fields[i], p.m), more)
            case None => None
            case Some(items) => DecLoop(fields, tail, Progress(p.m[fields[i].member := Rep(items)], p.seen))
    decreases fields[i], 2, |more|
  {
    var f := fields[i];
    var s := EncTagged(f, more[0]).value;
    var rest := EncItems(f, more[1..], true).value;
    assert s + rest + tail == s + (rest + tail);
    TaggedDecodes(fields, i, more[0], p, rest + tail);
    var stored := StoreOne(f, p.m, more[0]);
    if stored.Some? {
      var p' := Progress(stored.value, p.seen);
      if |more| == 1 {
        assert rest + tail == tail;
      } else {
        ItemsDecode(fields, i, more[1..], p', tail);
        var items := MergeItems(f, ItemsAt(f, p'.m), more[1..]);
        if items.Some? {
          assert p'.m[f.member := Rep(items.value)] == p.m[f.member := Rep(items.value)];
        }
      }
    }
  }

  /** A packed array: one record holding all the items. */
  lemma {:induction false} ArrayDecodes(fields: seq<Field>, i: nat, more: seq<Value>, p: Progress, tail: seq<byte>)
    requires WellFormed(fields) && i < |fields| && fields[i].htype.Repeated? && Packable(fields[i].ltype)
    requires forall v :: v in more ==> ValidValue(fields[i], v)
    requires EncItems(fields[i], more, false).Some? && |EncItems(fields[i], more, false).value| < TWO32
    ensures DecLoop(fields, Tag(WT_STRING, fields[i].tag) + Prefixed(EncItems(fields[i], more, false).value) + tail, p)
         == match MergeItems(fields[i], ItemsAt(fields[i], p.m), more)
            case None => None
            case Some(items) => DecLoop(fields, tail, Progress(p.m[fields[i].member := Rep(items)], p.seen))
    decreases fields[i], 3
  {
    hide EncValue, DecValue, MergeValue, DecLoop, Find, Tag, EncItems, ValidValue, Prefixed;
    var f := fields[i];
    var d := EncItems(f, more, false).value;
    assert Tag(WT_STRING, f.tag) + Prefixed(d) + tail == Tag(WT_STRING, f.tag) + (Prefixed(d) + tail);
    DelimitedRoundTrip(d, tail);
    PackedDecodes(f, ItemsAt(f, p.m), more);
    DeclaredRound(fields, i, WT_STRING, Prefixed(d) + tail, p);
  }

  /** Everything pb_encode writes for one field. */
  lemma {:induction false} FieldDecodes(fields: seq<Field>, i: nat, b: Struct, p: Progress, tail: seq<byte>)
    requires WellFormed(fields) && i < |fields| && ValidMember(fields[i], b)
    requires EncField(fields[i], b).Some? && |EncField(fields[i], b).value| < TWO32
    ensures DecLoop(fields, EncField(fields[i], b).value + tail, p)
         == Continue(fields, MergeField(fields[i], p.m, b), SeenWith(fields, i, p.seen), tail)
    decreases fields[i], 4
  {
    hide EncValue, DecValue, MergeValue, DecLoop, Find, Tag, EncItems, EncTagged, ValidValue, MergeItems;
    var f := fields[i];
    if !IsSet(f, b) {
      assert EncField(f, b).value + tail == tail;
    } else if !f.htype.Repeated? {
      TaggedDecodes(fields, i, ValueAt(f, b), p, tail);
    } else if !Packable(f.ltype) {
      ItemsDecode(fields, i, ItemsAt(f, b), p, tail);
    } else {
      ArrayDecodes(fields, i, ItemsAt(f, b), p, tail);
    }
  }

  function Range(lo: nat, hi: nat): (r: set<nat>)
    ensures forall k :: k in r <==> lo <= k < hi
    decreases hi - lo
  {
    if lo >= hi then {} else {lo} + Range(lo + 1, hi)
  }

  /** The positions of the required fields among fields i to j. */
  function ReqBetween(fields: seq<Field>, i: nat, j: nat): set<nat>
    requires i <= j <= |fields|
  {
    Range(ReqCount(fields[..i]), ReqCount(fields[..j]))
  }

  lemma NothingBetween(fields: seq<Field>, i: nat, seen: set<nat>)
    requires i <= |fields|
    ensures seen + ReqBetween(fields, i, i) == seen
  {
  }

  lemma SeenAddsUp(fields: seq<Field>, i: nat, j: nat, seen: set<nat>)
    requires i < j <= |fields|
    ensures SeenWith(fields, i, seen) + ReqBetween(fields, i + 1, j) == seen + ReqBetween(fields, i, j)
  {
    RequiredIndex(fields, i);
    RequiredMonotone(fields, i + 1, j);
  }

  /** What pb_encode writes for the fields from i to j, whatever follows. */
  lemma {:induction false} FieldsDecode(fields: seq<Field>, i: nat, j: nat, b: Struct, p: Progress, tail: seq<byte>)
    requires WellFormed(fields) && i <= j <= |fields| && Valid(fields, b)
    requires EncFields(fields[i..j], b).Some? && |EncFields(fields[i..j], b).value| < TWO32
    ensures DecLoop(fields, EncFields(fields[i..j], b).value + tail, p)
         == match MergeFields(fields[i..j], p.m, b)
            case None => None
            case Some(m) => DecLoop(fields, tail, Progress(m, p.seen + ReqBetween(fields, i, j)))
    decreases fields, 5, j - i
  {
    hide DecLoop, EncField, MergeField, ValidMember, ReqBetween, SeenWith, ReqCount;
    if i == j {
      NothingBetween(fields, i, p.seen);
      assert EncFields(fields[i..j], b).value + tail == tail;
    } else {
      assert fields[i..j][0] == fields[i] && fields[i..j][1..] == fields[i+1..j];
      var s := EncField(fields[i], b).value;
      var rest := EncFields(fields[i+1..j], b).value;
      assert EncFields(fields[i..j], b).value + tail == s + (rest + tail);
      FieldDecodes(fields, i, b, p, rest + tail);
      var m := MergeField(fields[i], p.m, b);
      if m.Some? {
        FieldsDecode(fields, i + 1, j, b, Progress(m.value, SeenWith(fields, i, p.seen)), tail);
        SeenAddsUp(fields, i, j, p.seen);
      }
    }
  }

  lemma {:induction false} RequiredMonotone(fields: seq<Field>, i: nat, j: nat)
    requires i <= j <= |fields|
    ensures ReqCount(fields[..i]) <= ReqCount(fields[..j])
    decreases j - i
  {
    if i < j {
      RequiredIndex(fields, i);
      RequiredMonotone(fields, i + 1, j);
    }
  }

  /** pb_decode_noinit of pb_encode's output is the merge, for every struct it
      is decoded into; it fails exactly where an array has no room. */
  lemma {:induction false} DecodeMerges(fields: seq<Field>, m: Struct, b: Struct)
    requires WellFormed(fields) && Valid(fields, b)
    requires EncFields(fields, b).Some? && |EncFields(fields, b).value| < TWO32
    ensures DecMessage(fields, EncFields(fields, b).value, m) == MergeFields(fields, m, b)
    decreases fields, 6
  {
    hide EncFields, MergeFields, Valid;
    var s := EncFields(fields, b).value;
    assert fields[0..|fields|] == fields && s + [] == s;
    FieldsDecode(fields, 0, |fields|, b, Progress(m, {}), []);
    assert fields[..0] == [] && fields[..|fields|] == fields;
    assert forall p :: DecLoop(fields, [], p) == Some((p, []));
  }
}
