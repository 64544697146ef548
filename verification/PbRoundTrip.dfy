/** The round trip: pb_decode of pb_encode's output restores the message, exactly
    if the encoder's check for default values leaves nothing out of it. */
module PbRoundTrip {
  import opened Wrappers
  import opened Bytes
  import opened PbWire
  import opened PbModel
  import opened PbMerge

  // ----- equality of messages, ignoring what is not set -----

  predicate SameValue(f: Field, a: Value, b: Value)
    decreases f, 0
  {
    match f.ltype
    case LString => a.Blob? && b.Blob? && UpToNul(a.data) == UpToNul(b.data)
    case LSubmessage => a.Msg? && b.Msg? && Same(f.sub, a.members, b.members)
    case _ => a == b
  }

  predicate SameMember(f: Field, a: Struct, b: Struct)
    decreases f, 1
  {
    f.member in a && f.member in b &&
    var x, y := a[f.member], b[f.member];
    match f.htype
    case Required | Singular => x.One? && y.One? && SameValue(f, x.v, y.v)
    case Optional => x.Opt? && y.Opt? && x.has == y.has && (x.has ==> SameValue(f, x.v, y.v))
    case Repeated =>
      x.Rep? && y.Rep? && |x.items| == |y.items|
      && forall k :: 0 <= k < |x.items| ==> SameValue(f, x.items[k], y.items[k])
    case Oneof =>
      x.Union? && y.Union? && (x.which == f.tag <==> y.which == f.tag)
      && (x.which == f.tag ==> SameValue(f, x.v, y.v))
  }

  /** The same set fields with the same values. */
  predicate Same(fields: seq<Field>, a: Struct, b: Struct)
    decreases fields, 2
  {
    forall i :: 0 <= i < |fields| ==> SameMember(fields[i], a, b)
  }

  // ----- what the encoder leaves out -----

  /** Every proto3 submessage that the encoder takes for default is the default, in
      all that is encoded. The check looks at the first element of an array only,
      and not at has_ members. */
  predicate Keeps(fields: seq<Field>, m: Struct)
    decreases fields, 2
  {
    forall i :: 0 <= i < |fields| ==> KeepsMember(fields[i], m)
  }

  predicate KeepsMember(f: Field, m: Struct)
    decreases f, 1
  {
    match f.htype
    case Repeated => forall k :: 0 <= k < |ItemsAt(f, m)| ==> KeepsValue(f, ItemsAt(f, m)[k])
    case Singular =>
      if IsSet(f, m) then KeepsValue(f, ValueAt(f, m))
      else f.ltype.LSubmessage? ==> Same(f.sub, StructOf(ValueAt(f, m)), Defaults(f.sub))
    case _ => IsSet(f, m) ==> KeepsValue(f, ValueAt(f, m))
  }

  predicate KeepsValue(f: Field, v: Value)
    decreases f, 0
  {
    f.ltype.LSubmessage? ==> Keeps(f.sub, StructOf(v))
  }

  // ----- the encoder accepts every valid message -----

  lemma {:induction false} EncodesValue(f: Field, v: Value)
    requires WellFormedField(f) && ValidValue(f, v)
    ensures EncValue(f, v).Some? && EncTagged(f, v).Some?
    decreases f, 0
  {
    if f.ltype.LSubmessage? {
      EncodesValid(f.sub, v.members);
    } else if f.ltype.LSVarint? {
      assert -Modulus(f.dataSize) / 2 >= -TWO63;
    }
  }

  lemma {:induction false} EncodesItems(f: Field, items: seq<Value>, tagged: bool)
    requires WellFormedField(f) && forall v :: v in items ==> ValidValue(f, v)
    ensures EncItems(f, items, tagged).Some?
    decreases f, 1, |items|
  {
    if items != [] {
      EncodesValue(f, items[0]);
      EncodesItems(f, items[1..], tagged);
    }
  }

  /** pb_encode succeeds on every valid message, when the stream has room. */
  lemma {:induction false} EncodesValid(fields: seq<Field>, m: Struct)
    requires (forall i :: 0 <= i < |fields| ==> WellFormedField(fields[i])) && Valid(fields, m)
    ensures EncFields(fields, m).Some?
    decreases fields, 2
  {
    if fields != [] {
      var f := fields[0];
      assert ValidMember(f, m);
      if f.htype.Repeated? {
        EncodesItems(f, ItemsAt(f, m), !Packable(f.ltype));
      } else if IsSet(f, m) {
        EncodesValue(f, ValueAt(f, m));
      }
      assert EncField(f, m).Some?;
      EncodesValid(fields[1..], m);
    }
  }

  // ----- merging works field by field -----

  /** Two fields that b both sets never share a member. */
  lemma SetFieldsSeparate(fields: seq<Field>, b: Struct, i: nat, j: nat)
    requires UniqueTags(fields) && SeparateMembers(fields)
    requires i < |fields| && j < |fields| && fields[i].member == fields[j].member
    requires IsSet(fields[i], b) && IsSet(fields[j], b)
    ensures i == j
  {
  }

  /** The result of merging b over m: every member that b sets is what merging
      that field alone gives, every other member is untouched; and it exists
      exactly when each of the fields can be merged. */
  lemma {:induction false} MergeIsPointwise(fields: seq<Field>, i: nat, m: Struct, b: Struct)
    requires UniqueTags(fields) && SeparateMembers(fields) && i <= |fields|
    ensures MergeFields(fields[i..], m, b).Some?
       <==> forall j :: i <= j < |fields| ==> MergeField(fields[j], m, b).Some?
    ensures MergeFields(fields[i..], m, b).Some? ==>
              forall j :: i <= j < |fields| && IsSet(fields[j], b) ==>
                var x := fields[j].member;
                x in MergeFields(fields[i..], m, b).value && x in MergeField(fields[j], m, b).value
                && MergeFields(fields[i..], m, b).value[x] == MergeField(fields[j], m, b).value[x]
    ensures MergeFields(fields[i..], m, b).Some? ==>
              forall x | !Sets(fields, i, b, x) ::
                (x in MergeFields(fields[i..], m, b).value <==> x in m)
                && (x in m ==> MergeFields(fields[i..], m, b).value[x] == m[x])
    decreases |fields| - i
  {
    hide MergeValue, MergeItems, IsProto3Default;
    if i < |fields| {
      assert fields[i..][0] == fields[i] && fields[i..][1..] == fields[i+1..];
      var first := MergeField(fields[i], m, b);
      if first.Some? {
        var m' := first.value;
        MergeIsPointwise(fields, i + 1, m', b);
        MergeTouchesOne(fields[i], m, b);
        forall j | i < j < |fields|
          ensures MergeField(fields[j], m', b).Some? == MergeField(fields[j], m, b).Some?
          ensures MergeField(fields[j], m, b).Some? && IsSet(fields[j], b) ==>
                    fields[j].member in MergeField(fields[j], m, b).value
                    && fields[j].member in MergeField(fields[j], m', b).value
                    && MergeField(fields[j], m', b).value[fields[j].member]
                        == MergeField(fields[j], m, b).value[fields[j].member]
        {
          if IsSet(fields[j], b) {
            if IsSet(fields[i], b) && fields[i].member == fields[j].member { SetFieldsSeparate(fields, b, i, j); }
            MergeReadsOne(fields[j], m, m', b);
          }
        }
        if IsSet(fields[i], b) && Sets(fields, i + 1, b, fields[i].member) {
          var j :| i + 1 <= j < |fields| && fields[j].member == fields[i].member && IsSet(fields[j], b);
          SetFieldsSeparate(fields, b, i, j);
        }
      }
    }
  }

  /** Some field from i on is set in b and stored in member x. */
  predicate Sets(fields: seq<Field>, i: nat, b: Struct, x: nat) {
    exists j :: i <= j < |fields| && fields[j].member == x && IsSet(fields[j], b)
  }

  lemma MergeTouchesOne(f: Field, m: Struct, b: Struct)
    requires MergeField(f, m, b).Some?
    ensures forall x | x != f.member || !IsSet(f, b) ::
              (x in m <==> x in MergeField(f, m, b).value) && (x in m ==> MergeField(f, m, b).value[x] == m[x])
    ensures IsSet(f, b) ==> f.member in MergeField(f, m, b).value
  {
  }

  lemma MergeReadsOne(f: Field, m: Struct, m': Struct, b: Struct)
    requires f.member in m <==> f.member in m'
    requires f.member in m ==> m[f.member] == m'[f.member]
    requires IsSet(f, b)
    ensures MergeField(f, m, b).Some? == MergeField(f, m', b).Some?
    ensures MergeField(f, m, b).Some? ==>
              f.member in MergeField(f, m, b).value && f.member in MergeField(f, m', b).value
              && MergeField(f, m, b).value[f.member] == MergeField(f, m', b).value[f.member]
  {
    assert MemberOf(f, m) == MemberOf(f, m');
  }

  // ----- merging over the defaults restores the message -----

  lemma {:induction false} DefaultsAt(fields: seq<Field>, i: nat)
    requires SeparateMembers(fields) && i < |fields|
    ensures fields[i].member in Defaults(fields)
    ensures Defaults(fields)[fields[i].member] == DefaultMember(fields[i])
  {
    if i > 0 {
      assert fields[1..][i-1] == fields[i];
      DefaultsAt(fields[1..], i - 1);
    } else if fields[0].member in Defaults(fields[1..]) {
      var j := DefaultsKeys(fields[1..], fields[0].member);
      assert fields[1..][j] == fields[j+1];
      DefaultsAt(fields[1..], j);
    }
  }

  lemma {:induction false} DefaultsKeys(fields: seq<Field>, x: nat) returns (j: nat)
    requires x in Defaults(fields)
    ensures j < |fields| && fields[j].member == x
  {
    if fields[0].member == x {
      j := 0;
    } else {
      j := DefaultsKeys(fields[1..], x);
      j := j + 1;
    }
  }

  lemma {:induction false} ValueRestored(f: Field, prior: Value, v: Value)
    requires WellFormedField(f) && ValidValue(f, v)
    requires f.ltype.LSubmessage? ==> Start(f, prior) == Defaults(f.sub)
    ensures MergeValue(f, prior, v).Some? && (SameValue(f, v, MergeValue(f, prior, v).value) <==> KeepsValue(f, v))
    decreases f, 0
  {
    if f.ltype.LString? {
      UpToNulIdempotent(v.data);
    } else if f.ltype.LSubmessage? {
      MergeRestores(f.sub, v.members);
    }
  }

  lemma {:induction false} UpToNulIdempotent(s: seq<byte>)
    ensures UpToNul(UpToNul(s)) == UpToNul(s)
  {
    if s != [] && s[0] != 0 {
      UpToNulIdempotent(s[1..]);
      assert UpToNul(s)[1..] == UpToNul(s[1..]);
    }
  }

  lemma {:induction false} ItemsRestored(f: Field, items: seq<Value>, more: seq<Value>)
    requires WellFormedField(f) && f.htype.Repeated? && |items| + |more| <= f.arraySize
    requires forall v :: v in more ==> ValidValue(f, v)
    ensures MergeItems(f, items, more).Some?
    ensures var r := MergeItems(f, items, more).value;
            |r| == |items| + |more| && r[..|items|] == items
            && forall k :: 0 <= k < |more| ==> (SameValue(f, more[k], r[|items| + k]) <==> KeepsValue(f, more[k]))
    decreases f, 1, |more|
  {
    if more != [] {
      ValueRestored(f, Num(0), more[0]);
      var v := MergeValue(f, Num(0), more[0]).value;
      ItemsRestored(f, items + [v], more[1..]);
      var r := MergeItems(f, items, more).value;
      assert r[|items|] == r[..|items| + 1][|items|] == v;
      assert r[..|items|] == r[..|items| + 1][..|items|];
      forall k | 0 <= k < |more| ensures SameValue(f, more[k], r[|items| + k]) <==> KeepsValue(f, more[k]) {
        if k > 0 {
          assert SameValue(f, more[1..][k-1], r[|items + [v]| + (k - 1)]) <==> KeepsValue(f, more[1..][k-1]);
        }
      }
    }
  }

  lemma {:induction false} FieldRestored(fields: seq<Field>, i: nat, b: Struct)
    requires WellFormed(fields) && i < |fields| && ValidMember(fields[i], b)
    ensures MergeField(fields[i], Defaults(fields), b).Some?
    ensures IsSet(fields[i], b) ==>
              fields[i].member in MergeField(fields[i], Defaults(fields), b).value
              && (SameMember(fields[i], b, MergeField(fields[i], Defaults(fields), b).value)
                  <==> KeepsMember(fields[i], b))
    decreases fields[i], 3
  {
    var f := fields[i];
    DefaultsAt(fields, i);
    assert WellFormedField(f);
    hide Defaults, WellFormed, WellFormedField, ValidMember, SameMember, KeepsMember, MergeField, DefaultMember;
    if f.htype.Repeated? {
      RepeatedRestored(f, Defaults(fields), b);
    } else if IsSet(f, b) {
      SingleRestored(f, Defaults(fields), b);
    } else {
      NotMerged(f, Defaults(fields), b);
    }
  }

  lemma NotMerged(f: Field, d: Struct, b: Struct)
    requires !f.htype.Repeated? && !IsSet(f, b)
    ensures MergeField(f, d, b) == Some(d)
  {
  }

  lemma {:induction false} RepeatedRestored(f: Field, d: Struct, b: Struct)
    requires WellFormedField(f) && ValidMember(f, b) && f.htype.Repeated?
    requires f.member in d && d[f.member] == DefaultMember(f)
    ensures MergeField(f, d, b).Some?
    ensures IsSet(f, b) ==> f.member in MergeField(f, d, b).value
                            && (SameMember(f, b, MergeField(f, d, b).value) <==> KeepsMember(f, b))
    decreases f, 2
  {
    ItemsRestored(f, [], ItemsAt(f, b));
  }

  lemma {:induction false} SingleRestored(f: Field, d: Struct, b: Struct)
    requires WellFormedField(f) && ValidMember(f, b) && !f.htype.Repeated? && IsSet(f, b)
    requires f.member in d && d[f.member] == DefaultMember(f)
    ensures MergeField(f, d, b).Some?
    ensures f.member in MergeField(f, d, b).value
    ensures SameMember(f, b, MergeField(f, d, b).value) <==> KeepsMember(f, b)
    decreases f, 1
  {
    ValueRestored(f, ValueAt(f, d), ValueAt(f, b));
  }

  lemma UnsetIsDefault(f: Field, b: Struct, r: Struct)
    requires WellFormedField(f) && ValidMember(f, b) && !IsSet(f, b)
    requires f.member in r && (r[f.member] == DefaultMember(f)
             || (f.htype.Oneof? && r[f.member].Union? && r[f.member].which != f.tag))
    ensures SameMember(f, b, r) <==> KeepsMember(f, b)
  {
    if f.htype.Singular? {
      if f.ltype.LString? {
      } else if f.ltype.LFixedBytes? {
        assert b[f.member].v.data == Zeros(0);
      }
    }
  }

  /** Merging a valid message over the defaults gives the message if nothing is left
      out. */
  lemma {:induction false} MergeRestores(fields: seq<Field>, b: Struct)
    requires WellFormed(fields) && Valid(fields, b)
    ensures MergeFields(fields, Defaults(fields), b).Some?
    ensures Same(fields, b, MergeFields(fields, Defaults(fields), b).value) <==> Keeps(fields, b)
    decreases fields, 3
  {
    hide MergeField, MergeFields, ValidMember, SameMember, KeepsMember, Defaults, DefaultMember;
    var d := Defaults(fields);
    assert fields[0..] == fields;
    forall i | 0 <= i < |fields| ensures MergeField(fields[i], d, b).Some? { FieldRestored(fields, i, b); }
    MergeIsPointwise(fields, 0, d, b);
    var r := MergeFields(fields, d, b).value;
    forall i | 0 <= i < |fields| ensures SameMember(fields[i], b, r) <==> KeepsMember(fields[i], b) {
      MemberRestored(fields, i, b, r);
    }
  }

  lemma {:induction false} MemberRestored(fields: seq<Field>, i: nat, b: Struct, r: Struct)
    requires WellFormed(fields) && Valid(fields, b) && i < |fields|
    requires MergeFields(fields, Defaults(fields), b) == Some(r)
    ensures SameMember(fields[i], b, r) <==> KeepsMember(fields[i], b)
    decreases fields, 2
  {
    hide MergeField, MergeFields, ValidMember, Defaults, MergeValue;
    var d, f := Defaults(fields), fields[i];
    assert fields[0..] == fields && ValidMember(f, b);
    MergeIsPointwise(fields, 0, d, b);
    FieldRestored(fields, i, b);
    DefaultsAt(fields, i);
    if !IsSet(f, b) {
      if Sets(fields, 0, b, f.member) {
        var j :| 0 <= j < |fields| && fields[j].member == f.member && IsSet(fields[j], b);
        OtherOneof(fields, i, j, d, b);
      }
      UnsetIsDefault(f, b, r);
    }
  }

  lemma OtherOneof(fields: seq<Field>, i: nat, j: nat, m: Struct, b: Struct)
    requires UniqueTags(fields) && SeparateMembers(fields) && i < |fields| && j < |fields|
    requires fields[i].member == fields[j].member && IsSet(fields[j], b) && !IsSet(fields[i], b)
    requires MergeField(fields[j], m, b).Some?
    ensures fields[i].htype.Oneof?
    ensures var x := fields[j].member; var r := MergeField(fields[j], m, b).value;
            x in r && r[x].Union? && r[x].which != fields[i].tag
  {
    if i < j { assert fields[i].tag != fields[j].tag; } else { assert fields[j].tag != fields[i].tag; }
  }

  /** pb_decode of pb_encode's output succeeds. It restores the message exactly if
      no proto3 submessage is left out that holds something. */
  lemma RoundTrip(fields: seq<Field>, m: Struct)
    requires WellFormed(fields) && Valid(fields, m)
    requires EncFields(fields, m).Some? ==> |EncFields(fields, m).value| < TWO32
    ensures EncFields(fields, m).Some?
    ensures Decode(fields, EncFields(fields, m).value).Some?
    ensures Same(fields, m, Decode(fields, EncFields(fields, m).value).value) <==> Keeps(fields, m)
  {
    EncodesValid(fields, m);
    DecodeMerges(fields, Defaults(fields), m);
    MergeRestores(fields, m);
  }

  /** The same for each member by itself. */
  lemma MemberRoundTrip(fields: seq<Field>, m: Struct, i: nat)
    requires WellFormed(fields) && Valid(fields, m) && i < |fields|
    requires EncFields(fields, m).Some? && |EncFields(fields, m).value| < TWO32
    ensures Decode(fields, EncFields(fields, m).value).Some?
    ensures SameMember(fields[i], m, Decode(fields, EncFields(fields, m).value).value) <==> KeepsMember(fields[i], m)
  {
    hide EncFields, MergeFields, SameMember, KeepsMember, WellFormed, Valid;
    DecodeMerges(fields, Defaults(fields), m);
    MergeRestores(fields, m);
    MemberRestored(fields, i, m, MergeFields(fields, Defaults(fields), m).value);
  }

  /** Without proto3 submessages nothing is left out. */
  predicate NoImplicit(fields: seq<Field>)
    decreases fields
  {
    forall i :: 0 <= i < |fields| && fields[i].ltype.LSubmessage? ==>
      !fields[i].htype.Singular? && NoImplicit(fields[i].sub)
  }

  lemma {:induction false} KeepsAll(fields: seq<Field>, m: Struct)
    requires NoImplicit(fields)
    ensures Keeps(fields, m)
    decreases fields
  {
    forall i | 0 <= i < |fields| ensures KeepsMember(fields[i], m) {
      var f := fields[i];
      forall v: Value ensures KeepsValue(f, v) { if f.ltype.LSubmessage? { KeepsAll(f.sub, StructOf(v)); } }
    }
  }

  const NUMBERS := Field(1, LVarint, Repeated, 0, 0, 4, 2, 0, [], Num(0))
  const NESTED := Field(1, LSubmessage, Singular, 0, 0, 12, 0, 0, [NUMBERS], Num(0))

  /** One that does not keep: a proto3 submessage with the numbers 0 and 5 is left
      out, and comes back without them. */
  lemma SubmessageLost()
    ensures var m := map[0 := One(Msg(map[0 := Rep([Num(0), Num(5)])]))];
            WellFormed([NESTED]) && Valid([NESTED], m) && EncFields([NESTED], m) == Some([]) && !Keeps([NESTED], m)
  {
    var inner := map[0 := Rep([Num(0), Num(5)])];
    var m := map[0 := One(Msg(inner))];
    NestedWellFormed();
    assert Valid([NESTED], m) by { assert ValidMember(NUMBERS, inner) && ValidMember(NESTED, m); }
    assert LooksDefault([NUMBERS], inner) by { assert SlotDefault(NUMBERS, inner); }
    assert EncFields([NESTED], m) == Some([]) by { EncodesNothing(m); }
    assert !Same([NUMBERS], inner, Defaults([NUMBERS])) by {
      assert !SameMember([NUMBERS][0], inner, Defaults([NUMBERS]));
    }
    assert !KeepsMember([NESTED][0], m);
  }

  lemma NestedWellFormed()
    ensures WellFormed([NESTED])
  {
    assert [NUMBERS][..0] == [] && [NESTED][..0] == [];
    assert WellFormed([NUMBERS]);
  }

  lemma EncodesNothing(m: Struct)
    requires IsProto3Default(NESTED, ValueAt(NESTED, m))
    ensures EncFields([NESTED], m) == Some([])
  {
    hide IsProto3Default;
    var nothing: seq<byte> := [];
    assert nothing + nothing == nothing;
    assert [NESTED][0] == NESTED && EncField(NESTED, m) == Some(nothing);
    assert EncFields([NESTED][1..], m) == Some(nothing);
  }
}
