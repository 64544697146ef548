/** The cyclic field iterator of pb_common.c, as a class with the fields of
    pb_field_iter_t. Pointers are addresses. */
module PbIter {
  import opened PbModel

  /** PB_LAST_FIELD. */
  const TERMINATOR := Field(0, LVarint, Required, 0, 0, 0, 0, 0, [], Num(0))

  /** What the field's member occupies in the struct. */
  function MemberSize(f: Field): nat {
    if f.htype.Repeated? then f.dataSize * f.arraySize else f.dataSize
  }

  /** The descriptor of a struct whose member i is at offset at[i] and whose size
      or has_ member for it is at offset sizeAt[i], as PB_DATAOFFSET_FIRST,
      PB_DATAOFFSET_OTHER, PB_DATAOFFSET_UNION and pb_delta fill it in (pb.h:391-397). */
  predicate LaidOut(fields: seq<Field>, at: seq<nat>, sizeAt: seq<int>) {
    |at| == |fields| && |sizeAt| == |fields|
    && (forall i :: 0 <= i < |fields| ==> fields[i].tag >= 1 && fields[i].sizeOffset == sizeAt[i] - at[i])
    && (forall i :: 0 <= i < |fields| ==> (i == 0 ==> fields[i].dataOffset == at[i]))
    && (forall i :: 0 < i < |fields| ==>
          if fields[i-1].htype.Oneof? && fields[i].htype.Oneof? && fields[i].dataOffset == 0xFFFF_FFFF then
            at[i] == at[i-1] && sizeAt[i] == sizeAt[i-1]
          else fields[i].dataOffset == at[i] - at[i-1] - MemberSize(fields[i-1]))
  }

  /** Every descriptor the generator emits describes some layout. */
  lemma {:induction false} LayoutOf(fields: seq<Field>) returns (at: seq<nat>, sizeAt: seq<int>)
    requires Iterable(fields)
    ensures LaidOut(fields, at, sizeAt)
  {
    if fields == [] {
      at, sizeAt := [], [];
    } else {
      var n := |fields| - 1;
      at, sizeAt := LayoutOf(fields[..n]);
      var f := fields[n];
      var here := if n == 0 then f.dataOffset
                  else if UnionSibling(fields[n-1], f) then at[n-1]
                  else at[n-1] + MemberSize(fields[n-1]) + f.dataOffset;
      at, sizeAt := at + [here], sizeAt + [here + f.sizeOffset];
    }
  }

  class FieldIter {
    const fields: seq<Field>
    const base: int
    ghost const at: seq<nat>
    ghost const sizeAt: seq<int>
    var pos: nat
    var requiredFieldIndex: nat
    var pData: int
    var pSize: int

    /** The iterator stands at a field, or at the terminator of an empty
        descriptor; its index counts the required fields before pos, and its
        pointers lead to that field's members. */
    ghost predicate Valid()
      reads this
    {
      && LaidOut(fields, at, sizeAt)
      && (pos < |fields| || pos == |fields| == 0)
      && requiredFieldIndex == ReqCount(fields[..pos])
      && (pos < |fields| ==> pData == base + at[pos] && pSize == base + sizeAt[pos])
    }

    /** iter->pos, the descriptor entry. */
    function Current(): Field
      requires pos <= |fields|
      reads this
    {
      if pos < |fields| then fields[pos] else TERMINATOR
    }

    /** pb_field_iter_begin on a new iterator. */
    constructor (fields: seq<Field>, base: int, ghost at: seq<nat>, ghost sizeAt: seq<int>)
      requires LaidOut(fields, at, sizeAt)
      ensures Valid() && pos == 0
      ensures this.fields == fields && this.base == base && this.at == at && this.sizeAt == sizeAt
    {
      this.fields, this.base, this.at, this.sizeAt := fields, base, at, sizeAt;
      new;
      var nonempty := Begin();
    }

    /** pb_field_iter_begin. */
    method Begin() returns (nonempty: bool)
      requires LaidOut(fields, at, sizeAt)
      modifies this
      ensures Valid() && pos == 0 && (nonempty <==> fields != [])
    {
      pos := 0;
      requiredFieldIndex := 0;
      pData := base + Current().dataOffset;
      pSize := pData + Current().sizeOffset;
      nonempty := Current().tag != 0;
    }

    /** pb_field_iter_next: one step forward, false on wrapping to the start. */
    method Next() returns (more: bool)
      requires Valid()
      modifies this
      ensures Valid()
      ensures more <==> old(pos) + 1 < |fields|
      ensures pos == if more then old(pos) + 1 else 0
    {
      var prev := Current();
      if prev.tag == 0 { return false; }
      pos := pos + 1;
      if Current().tag == 0 {
        var nonempty := Begin();
        return false;
      }
      assert fields[..pos][..pos-1] == fields[..pos-1];
      var prevSize := prev.dataSize;
      if prev.htype.Oneof? && Current().htype.Oneof? && Current().dataOffset == SIZE_MAX {
        return true;
      } else if prev.htype.Repeated? {
        prevSize := prevSize * prev.arraySize;
      }
      if prev.htype.Required? {
        requiredFieldIndex := requiredFieldIndex + 1;
      }
      pData := pData + prevSize + Current().dataOffset;
      pSize := pData + Current().sizeOffset;
      return true;
    }

    /** pb_field_iter_find: the search goes once around from wherever the
        iterator stands. It succeeds iff the tag is declared, for every tag from
        1; in an empty descriptor the terminator matches a tag of 0. */
    method FindTag(tag: nat) returns (found: bool)
      requires Valid()
      modifies this
      ensures Valid()
      ensures found <==> (exists i :: 0 <= i < |fields| && fields[i].tag == tag) || (fields == [] && tag == 0)
      ensures found ==> Current().tag == tag
      ensures !found ==> pos == old(pos)
    {
      var start := pos;
      ghost var steps := 0;
      while true
        invariant Valid() && 0 <= steps
        invariant fields != [] ==> steps < |fields| && pos == Turn(start, steps)
        invariant fields == [] ==> steps == 0
        invariant fields != [] ==> forall k :: 0 <= k < steps ==> fields[Turn(start, k)].tag != tag
        decreases |fields| - steps
      {
        if Current().tag == tag { return true; }
        var more := Next();
        if pos == start {
          if fields != [] { TurnCovers(start, tag); }
          return false;
        }
        steps := steps + 1;
      }
    }

    /** The position after a number of steps around the descriptor. */
    ghost function Turn(start: nat, steps: nat): nat
      requires start < |fields| && steps < |fields|
    {
      if start + steps < |fields| then start + steps else start + steps - |fields|
    }

    /** A whole turn passes by every field. */
    lemma TurnCovers(start: nat, tag: nat)
      requires start < |fields| && forall k :: 0 <= k < |fields| ==> fields[Turn(start, k)].tag != tag
      ensures forall i :: 0 <= i < |fields| ==> fields[i].tag != tag
    {
      forall i | 0 <= i < |fields| ensures fields[i].tag != tag {
        assert Turn(start, if i >= start then i - start else i + |fields| - start) == i;
      }
    }
  }
}
