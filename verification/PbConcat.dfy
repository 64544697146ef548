/** Parsing is compositional: what the decoder makes of a run of whole fields
    does not depend on what follows, so messages merge by concatenation and
    unknown fields between known ones change nothing. */
module PbConcat {
  import opened Wrappers
  import opened Bytes
  import opened PbWire
  import opened PbModel
  import opened PbMerge
  import opened PbRoundTrip

  // ----- one record does not look past its end -----

  lemma DelimitedLocal(s: seq<byte>, tail: seq<byte>)
    requires DecDelimited(s).Some?
    ensures DecDelimited(s + tail) == Some((DecDelimited(s).value.0, DecDelimited(s).value.1 + tail))
  {
    Varint32Local(s, tail);
    var (n, rest) := DecodeVarint32(s).value;
    assert (rest + tail)[..n] == rest[..n] && (rest + tail)[n..] == rest[n..] + tail;
  }

  lemma ValueLocal(f: Field, s: seq<byte>, prior: Value, tail: seq<byte>)
    requires DecValue(f, s, prior).Some?
    ensures DecValue(f, s + tail, prior) == Some((DecValue(f, s, prior).value.0, DecValue(f, s, prior).value.1 + tail))
  {
    hide DecodeVarint, DecDelimited, Narrow, FromLittleEndian;
    match f.ltype
    case LVarint | LUVarint | LSVarint => VarintLocal(s, tail);
    case LFixed32 => assert (s + tail)[..4] == s[..4] && (s + tail)[4..] == s[4..] + tail;
    case LFixed64 => assert (s + tail)[..8] == s[..8] && (s + tail)[8..] == s[8..] + tail;
    case _ => DelimitedLocal(s, tail);
  }

  lemma FieldLocal(f: Field, wireType: nat, s: seq<byte>, m: Struct, tail: seq<byte>)
    requires DecField(f, wireType, s, m).Some?
    ensures DecField(f, wireType, s + tail, m)
         == Some((DecField(f, wireType, s, m).value.0, DecField(f, wireType, s, m).value.1 + tail))
  {
    hide DecValue, DecDelimited, DecPacked;
    if f.htype.Repeated? && wireType == WT_STRING && Packable(f.ltype) {
      DelimitedLocal(s, tail);
    } else {
      ValueLocal(f, s, if f.htype.Repeated? then Num(0) else ValueAt(f, m), tail);
    }
  }

  lemma SkipLocal(wireType: nat, s: seq<byte>, tail: seq<byte>)
    requires SkipField(wireType, s).Some?
    ensures SkipField(wireType, s + tail) == Some(SkipField(wireType, s).value + tail)
  {
    hide DecDelimited, VarintLen;
    if wireType == WT_VARINT {
      VarintLenLocal(s, tail);
      var n := VarintLen(s).value;
      assert (s + tail)[n..] == s[n..] + tail;
    } else if wireType == WT_64BIT {
      assert (s + tail)[8..] == s[8..] + tail;
    } else if wireType == WT_STRING {
      DelimitedLocal(s, tail);
    } else {
      assert (s + tail)[4..] == s[4..] + tail;
    }
  }

  lemma RecordLocal(fields: seq<Field>, s: seq<byte>, p: Progress, tail: seq<byte>)
    requires DecRecord(fields, s, p).Next?
    ensures DecRecord(fields, s + tail, p) == Next(DecRecord(fields, s, p).p, DecRecord(fields, s, p).rest + tail)
  {
    hide DecField, SkipField, DecodeVarint32;
    Varint32Local(s, tail);
    var t := DecodeTag(s);
    var i := Find(fields, t.tag);
    if i.Some? {
      FieldLocal(fields[i.value], t.wireType, t.rest, p.m, tail);
    } else {
      SkipLocal(t.wireType, t.rest, tail);
    }
  }

  // ----- runs of whole records -----

  /** The bytes are a run of complete fields that the decoder accepts. */
  predicate Whole(fields: seq<Field>, s: seq<byte>, p: Progress)
    decreases |s|
  {
    s == [] || (var r := DecRecord(fields, s, p); r.Next? && Whole(fields, r.rest, r.p))
  }

  /** The decoder's state after such a run. */
  function After(fields: seq<Field>, s: seq<byte>, p: Progress): Progress
    requires Whole(fields, s, p)
    decreases |s|
  {
    if s == [] then p else var r := DecRecord(fields, s, p); After(fields, r.rest, r.p)
  }

  /** Decoding a run of whole fields and then anything else. */
  lemma {:induction false} LoopSplits(fields: seq<Field>, s: seq<byte>, p: Progress, tail: seq<byte>)
    requires Whole(fields, s, p)
    ensures DecLoop(fields, s + tail, p) == DecLoop(fields, tail, After(fields, s, p))
    decreases |s|
  {
    hide DecRecord;
    if s == [] {
      assert s + tail == tail;
    } else {
      var r := DecRecord(fields, s, p);
      RecordLocal(fields, s, p, tail);
      LoopSplits(fields, r.rest, r.p, tail);
    }
  }

  /** The required fields already seen do not influence the loop. */
  lemma {:induction false} SeenIsSeparate(fields: seq<Field>, s: seq<byte>, m: Struct, seen: set<nat>)
    ensures DecLoop(fields, s, Progress(m, seen)).Some? == DecLoop(fields, s, Progress(m, {})).Some?
    ensures DecLoop(fields, s, Progress(m, {})).Some? ==>
              var a := DecLoop(fields, s, Progress(m, seen)).value; var b := DecLoop(fields, s, Progress(m, {})).value;
              a.0.m == b.0.m && a.1 == b.1 && a.0.seen == seen + b.0.seen
    decreases |s|
  {
    hide DecField, SkipField, DecodeTag, Find;
    if s != [] {
      var r, r' := DecRecord(fields, s, Progress(m, seen)), DecRecord(fields, s, Progress(m, {}));
      if r.Next? {
        SeenIsSeparate(fields, r.rest, r.p.m, r.p.seen);
        SeenIsSeparate(fields, r.rest, r.p.m, r'.p.seen);
      }
    }
  }

  /** Merging by concatenation, for any bytes: after a whole message x, decoding
      x + y is decoding y into the same struct, but for the required fields,
      which the first message has already supplied. */
  lemma ConcatDecodes(fields: seq<Field>, x: seq<byte>, y: seq<byte>, m: Struct)
    requires Whole(fields, x, Progress(m, {})) && DecMessage(fields, x, m).Some?
    ensures DecMessage(fields, x + y, m).Some?
       <==> DecLoop(fields, y, Progress(DecMessage(fields, x, m).value, {})).Some?
    ensures DecMessage(fields, y, DecMessage(fields, x, m).value).Some? ==>
              DecMessage(fields, x + y, m) == DecMessage(fields, y, DecMessage(fields, x, m).value)
  {
    LoopSplits(fields, x, Progress(m, {}), y);
    LoopSplits(fields, x, Progress(m, {}), []);
    assert x + [] == x;
    var p := After(fields, x, Progress(m, {}));
    SeenIsSeparate(fields, y, p.m, p.seen);
  }

  /** Decoding enc(a) ++ enc(b) is pb_decode of enc(a) and then pb_decode_noinit
      of enc(b) into the same struct, and both are the merge of b into a. */
  lemma EncodingsConcatenate(fields: seq<Field>, a: Struct, b: Struct)
    requires WellFormed(fields) && Valid(fields, a) && Valid(fields, b)
    requires EncFields(fields, a).Some? && |EncFields(fields, a).value| < TWO32
    requires EncFields(fields, b).Some? && |EncFields(fields, b).value| < TWO32
    ensures var x, y := EncFields(fields, a).value, EncFields(fields, b).value;
            Decode(fields, x).Some?
            && Decode(fields, x + y) == DecMessage(fields, y, Decode(fields, x).value)
            && Decode(fields, x + y) == MergeFields(fields, Decode(fields, x).value, b)
  {
    hide DecLoop, EncFields, MergeFields, Valid, Defaults, Same, Keeps;
    var x, y := EncFields(fields, a).value, EncFields(fields, b).value;
    var d, n := Defaults(fields), |fields|;
    RoundTrip(fields, a);
    DecodeMerges(fields, d, a);
    var r := Decode(fields, x).value;
    DecodeMerges(fields, r, b);
    assert fields[0..n] == fields && y + [] == y;
    FieldsDecode(fields, 0, n, a, Progress(d, {}), y);
    var seen := ReqBetween(fields, 0, n);
    assert {} + seen == seen;
    FieldsDecode(fields, 0, n, b, Progress(r, seen), []);
    assert fields[..0] == [] && fields[..n] == fields;
    LoopEnds(fields);
  }

  lemma LoopEnds(fields: seq<Field>)
    ensures forall p :: DecLoop(fields, [], p) == Some((p, []))
  {
  }

  // ----- unknown fields -----

  /** One complete field, of any valid wire type, whose tag is not declared. */
  predicate Unknown(fields: seq<Field>, u: seq<byte>) {
    var t := DecodeTag(u);
    t.TagOk? && Find(fields, t.tag).None? && (fields == [] ==> t.tag >= 1)
    && SkipField(t.wireType, t.rest) == Some([])
  }

  lemma UnknownRound(fields: seq<Field>, u: seq<byte>, tail: seq<byte>, p: Progress)
    requires Unknown(fields, u)
    ensures DecLoop(fields, u + tail, p) == DecLoop(fields, tail, p)
  {
    RecordLocal(fields, u, p, tail);
    assert [] + tail == tail;
  }

  /** An unknown field between two runs of fields changes nothing. */
  lemma UnknownFieldIgnored(fields: seq<Field>, x: seq<byte>, u: seq<byte>, y: seq<byte>, m: Struct)
    requires Whole(fields, x, Progress(m, {})) && Unknown(fields, u)
    ensures DecMessage(fields, x + u + y, m) == DecMessage(fields, x + y, m)
  {
    hide DecLoop, Whole, Unknown;
    var p := Progress(m, {});
    assert x + u + y == x + (u + y);
    LoopSplits(fields, x, p, u + y);
    LoopSplits(fields, x, p, y);
    UnknownRound(fields, u, y, After(fields, x, p));
  }

  lemma {:induction false} EncodingSplits(fields: seq<Field>, i: nat, m: Struct)
    requires i <= |fields| && EncFields(fields, m).Some?
    ensures EncFields(fields[..i], m).Some? && EncFields(fields[i..], m).Some?
    ensures EncFields(fields, m).value == EncFields(fields[..i], m).value + EncFields(fields[i..], m).value
  {
    hide EncField;
    if i == 0 {
      assert fields[..0] == [] && fields[0..] == fields;
    } else {
      EncodingSplits(fields[1..], i - 1, m);
      assert fields[..i][0] == fields[0] && fields[..i][1..] == fields[1..][..i-1];
      assert fields[1..][i-1..] == fields[i..];
      var s := EncField(fields[0], m).value;
      var (x, y) := (EncFields(fields[1..][..i-1], m).value, EncFields(fields[i..], m).value);
      assert s + (x + y) == (s + x) + y;
    }
  }

  /** An unknown field inserted between any two top-level fields of an encoded
      message is skipped: the message still round-trips. */
  lemma UnknownFieldInMessage(fields: seq<Field>, b: Struct, i: nat, u: seq<byte>)
    requires WellFormed(fields) && Valid(fields, b) && i <= |fields| && Unknown(fields, u)
    requires EncFields(fields, b).Some? && |EncFields(fields, b).value| < TWO32
    ensures EncFields(fields[..i], b).Some? && EncFields(fields[i..], b).Some?
    ensures Decode(fields, EncFields(fields[..i], b).value + u + EncFields(fields[i..], b).value)
         == Decode(fields, EncFields(fields, b).value)
  {
    hide DecLoop, EncFields, MergeFields, Valid, Unknown;
    EncodingSplits(fields, i, b);
    var x, y := EncFields(fields[..i], b).value, EncFields(fields[i..], b).value;
    assert fields[0..i] == fields[..i];
    var p := Progress(Defaults(fields), {});
    assert x + u + y == x + (u + y);
    FieldsDecode(fields, 0, i, b, p, u + y);
    FieldsDecode(fields, 0, i, b, p, y);
    var m := MergeFields(fields[..i], p.m, b);
    if m.Some? {
      UnknownRound(fields, u, y, Progress(m.value, p.seen + ReqBetween(fields, 0, i)));
    }
  }

  /** A tag that breaks off is taken for the end of the message if at most five
      bytes of it are left, and for an error otherwise. */
  lemma BrokenTagAtEnd(fields: seq<Field>, x: seq<byte>, t: seq<byte>, m: Struct)
    requires Whole(fields, x, Progress(m, {})) && t != [] && DecodeVarint32(t).None?
    ensures DecMessage(fields, x + t, m) == if |t| <= 5 then DecMessage(fields, x, m) else None
  {
    hide Whole;
    var p := Progress(m, {});
    LoopSplits(fields, x, p, t);
    LoopSplits(fields, x, p, []);
    assert x + [] == x;
  }

  // ----- required fields -----

  /** The tags of the records that the loop went through. */
  function Occurring(fields: seq<Field>, s: seq<byte>, p: Progress): set<nat>
    decreases |s|
  {
    if s == [] then {}
    else var r := DecRecord(fields, s, p);
      if r.Next? then {DecodeTag(s).tag} + Occurring(fields, r.rest, r.p) else {}
  }

  lemma {:induction false} SeenIsOccurring(fields: seq<Field>, s: seq<byte>, p: Progress, i: nat)
    requires UniqueTags(fields) && ReqCount(fields) < MAX_REQUIRED
    requires i < |fields| && fields[i].htype.Required?
    requires DecLoop(fields, s, p).Some?
    ensures ReqCount(fields[..i]) in DecLoop(fields, s, p).value.0.seen
       <==> ReqCount(fields[..i]) in p.seen || fields[i].tag in Occurring(fields, s, p)
    decreases |s|
  {
    hide DecField, SkipField, DecodeTag, Find;
    if s != [] && DecRecord(fields, s, p).Next? {
      var r := DecRecord(fields, s, p);
      SeenIsOccurring(fields, r.rest, r.p, i);
      FindUnique(fields, i);
      var j := Find(fields, DecodeTag(s).tag);
      if j.Some? && fields[j.value].htype.Required? {
        RequiredIndex(fields, j.value);
        RequiredPositions(fields, i, j.value);
      }
    }
  }

  /** Different required fields have different positions. */
  lemma RequiredPositions(fields: seq<Field>, i: nat, j: nat)
    requires i < |fields| && j < |fields| && fields[i].htype.Required? && fields[j].htype.Required?
    ensures ReqCount(fields[..i]) == ReqCount(fields[..j]) ==> i == j
  {
    if i < j {
      RequiredIndex(fields, i);
      RequiredMonotone(fields, i + 1, j);
    } else if j < i {
      RequiredIndex(fields, j);
      RequiredMonotone(fields, j + 1, i);
    }
  }

  /** Every position below the count belongs to some required field. */
  lemma {:induction false} RequiredAt(fields: seq<Field>, k: nat) returns (i: nat)
    requires k < ReqCount(fields)
    ensures i < |fields| && fields[i].htype.Required? && ReqCount(fields[..i]) == k
  {
    var n := |fields| - 1;
    if k < ReqCount(fields[..n]) {
      i := RequiredAt(fields[..n], k);
      assert fields[..n][..i] == fields[..i];
    } else {
      i := n;
    }
  }

  /** pb_decode_noinit's check is exact: a message whose fields all decode is
      accepted iff every required tag occurred in it. */
  lemma RequiredCheckExact(fields: seq<Field>, s: seq<byte>, m: Struct)
    requires UniqueTags(fields) && ReqCount(fields) < MAX_REQUIRED
    ensures DecMessage(fields, s, m).Some?
       <==> DecLoop(fields, s, Progress(m, {})).Some?
            && forall i :: 0 <= i < |fields| && fields[i].htype.Required? ==>
                             fields[i].tag in Occurring(fields, s, Progress(m, {}))
  {
    var p := Progress(m, {});
    var d := DecLoop(fields, s, p);
    if d.Some? {
      var seen := d.value.0.seen;
      forall i | 0 <= i < |fields| && fields[i].htype.Required?
        ensures fields[i].tag in Occurring(fields, s, p) <==> ReqCount(fields[..i]) in seen
        ensures ReqCount(fields[..i]) < ReqCount(fields)
      {
        SeenIsOccurring(fields, s, p, i);
        RequiredIndex(fields, i);
      }
      if forall i :: 0 <= i < |fields| && fields[i].htype.Required? ==> fields[i].tag in Occurring(fields, s, p) {
        forall k | 0 <= k < ReqCount(fields) ensures k in seen {
          var i := RequiredAt(fields, k);
        }
      }
    }
  }

  // ----- "Last One Wins" -----

  /** What the standard promises of enc(a) ++ enc(b), for the fields that are
      not submessages: b's value replaces a's, b's array items follow a's, and
      what b does not set keeps a's value, if the encoder kept it. */
  lemma LastOneWins(fields: seq<Field>, a: Struct, b: Struct, i: nat)
    requires WellFormed(fields) && Valid(fields, a) && Valid(fields, b) && i < |fields|
    requires EncFields(fields, a).Some? && |EncFields(fields, a).value| < TWO32
    requires EncFields(fields, b).Some? && |EncFields(fields, b).value| < TWO32
    requires Decode(fields, EncFields(fields, a).value + EncFields(fields, b).value).Some?
    ensures var f := fields[i]; var r := Decode(fields, EncFields(fields, a).value + EncFields(fields, b).value).value;
            && (IsSet(f, b) && !f.htype.Repeated? && !f.ltype.LSubmessage? ==> SameMember(f, b, r))
            && (!Sets(fields, 0, b, f.member) ==> (SameMember(f, a, r) <==> KeepsMember(f, a)))
            && (IsSet(f, b) && f.htype.Repeated? && KeepsMember(f, a) && KeepsMember(f, b) ==>
                  Appended(f, ItemsAt(f, a), ItemsAt(f, b), ItemsAt(f, r)))
  {
    hide DecLoop, EncFields, MergeFields, Defaults, DecMessage, MergeValue, MergeField, SameMember, KeepsMember,
         Appended, Decode;
    var f := fields[i];
    assert ValidMember(f, b) && WellFormedField(f);
    hide Valid, WellFormed, WellFormedField, ValidMember;
    EncodingsConcatenate(fields, a, b);
    MemberRoundTrip(fields, a, i);
    var d := Decode(fields, EncFields(fields, a).value).value;
    var r := Decode(fields, EncFields(fields, a).value + EncFields(fields, b).value).value;
    assert fields[0..] == fields;
    MergeIsPointwise(fields, 0, d, b);
    if IsSet(f, b) {
      MemberMerged(f, a, b, d, r);
    } else if !Sets(fields, 0, b, f.member) {
      SameSlot(f, a, d, r);
    }
  }

  lemma SameSlot(f: Field, a: Struct, d: Struct, r: Struct)
    requires (f.member in d <==> f.member in r) && (f.member in d ==> d[f.member] == r[f.member])
    ensures SameMember(f, a, d) == SameMember(f, a, r)
  {
  }

  lemma MemberMerged(f: Field, a: Struct, b: Struct, d: Struct, r: Struct)
    requires WellFormedField(f) && ValidMember(f, b) && IsSet(f, b) && (SameMember(f, a, d) <==> KeepsMember(f, a))
    requires MergeField(f, d, b).Some? && f.member in r && f.member in MergeField(f, d, b).value
    requires r[f.member] == MergeField(f, d, b).value[f.member]
    ensures !f.htype.Repeated? && !f.ltype.LSubmessage? ==> SameMember(f, b, r)
    ensures f.htype.Repeated? && KeepsMember(f, a) && KeepsMember(f, b) ==>
              Appended(f, ItemsAt(f, a), ItemsAt(f, b), ItemsAt(f, r))
  {
    hide WellFormed;
    if f.htype.Repeated? {
      ItemsMerge(f, ItemsAt(f, d), ItemsAt(f, b));
    } else if !f.ltype.LSubmessage? {
      ValueRestored(f, ValueAt(f, d), ValueAt(f, b));
    }
  }

  /** r is a's items and then b's. */
  predicate Appended(f: Field, a: seq<Value>, b: seq<Value>, r: seq<Value>) {
    |r| == |a| + |b|
    && (forall k :: 0 <= k < |a| ==> SameValue(f, a[k], r[k]))
    && (forall k :: 0 <= k < |b| ==> SameValue(f, b[k], r[|a| + k]))
  }

  /** Items that could be merged fitted. */
  lemma {:induction false} ItemsMerge(f: Field, items: seq<Value>, more: seq<Value>)
    requires WellFormedField(f) && f.htype.Repeated? && MergeItems(f, items, more).Some?
    requires forall v :: v in more ==> ValidValue(f, v)
    ensures var r := MergeItems(f, items, more).value;
            |r| == |items| + |more| && r[..|items|] == items
            && forall k :: 0 <= k < |more| ==> (SameValue(f, more[k], r[|items| + k]) <==> KeepsValue(f, more[k]))
  {
    if more != [] {
      MergedFits(f, items, more);
      ItemsRestored(f, items, more);
    }
  }

  lemma {:induction false} MergedFits(f: Field, items: seq<Value>, more: seq<Value>)
    requires MergeItems(f, items, more).Some? && more != []
    ensures |items| + |more| <= f.arraySize
    decreases |more|
  {
    if |more| > 1 {
      MergedFits(f, items + [MergeValue(f, Num(0), more[0]).value], more[1..]);
    }
  }
}
