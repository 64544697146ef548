/** Reassembling one handshake message: the hm_fragment object and its bitmask of
    received bytes (d1_both.cc:152-251). Section 4.2.3 of RFC 6347. */
module DtlsReassembly {
  import opened Bits
  import Bytes

  type byte = Bytes.byte

  // ----- the message header -----

  const HEADER: nat := 12

  function U8(n: nat): byte { n % 256 }
  function U16(n: nat): seq<byte> { [U8(n / 256), U8(n)] }
  function U24(n: nat): seq<byte> { [U8(n / 65536), U8(n / 256), U8(n)] }

  function FromU16(s: seq<byte>): (r: nat)
    requires |s| == 2
    ensures r < 0x1_0000
  {
    256 * (s[0] as int) + s[1]
  }

  function FromU24(s: seq<byte>): (r: nat)
    requires |s| == 3
    ensures r < 0x100_0000
  {
    65536 * (s[0] as int) + 256 * (s[1] as int) + s[2]
  }

  /** The header of a fragment: type, message length, sequence number, fragment
      offset and fragment length. */
  function Header(typ: byte, msgLen: nat, seqNo: nat, fragOff: nat, fragLen: nat): (r: seq<byte>)
    ensures |r| == HEADER
  {
    [typ] + U24(msgLen) + U16(seqNo) + U24(fragOff) + U24(fragLen)
  }

  /** A message as the transcript hashes it: a single fragment. */
  function Raw(typ: byte, seqNo: nat, body: seq<byte>): seq<byte> {
    Header(typ, |body|, seqNo, 0, |body|) + body
  }

  // ----- bit_range and the mask -----

  /** bit_range: bits start to end, end excluded. */
  function BitRange(start: nat, end: nat): nat
    requires start <= end <= 8
  {
    AndNot(Pow2(end) - 1, Pow2(start) - 1)
  }

  lemma BitRangeBits(start: nat, end: nat, k: nat)
    requires start <= end <= 8
    ensures Bit(BitRange(start, end), k) <==> start <= k < end
    ensures BitRange(start, end) < Pow2(8)
  {
    hide Bit, Pow2, AndNot;
    BitOfAndNot(Pow2(end) - 1, Pow2(start) - 1, k);
    BitOfLowOnes(end, k);
    BitOfLowOnes(start, k);
    AndNotBound(Pow2(end) - 1, Pow2(start) - 1);
    Pow2Monotone(end, 8);
  }

  /** The length of the mask for a message. */
  function MaskLength(msgLen: nat): nat { (msgLen + 7) / 8 }

  /** Byte k of the message is marked in the mask. */
  predicate Marked(mask: seq<nat>, k: nat)
    requires k / 8 < |mask|
  {
    Bit(mask[k / 8], k % 8)
  }

  /** The mask has one bit for each byte of the message, set as got says. */
  ghost predicate Shows(mask: seq<nat>, got: seq<bool>) {
    && |mask| == MaskLength(|got|)
    && (forall i :: 0 <= i < |mask| ==> mask[i] < Pow2(8))
    && (forall k :: 0 <= k < 8 * |mask| ==> (Marked(mask, k) <==> k < |got| && got[k]))
  }

  /** got with the bytes from start to end added. */
  function Add(got: seq<bool>, start: nat, end: nat): (r: seq<bool>)
    ensures |r| == |got|
    ensures forall k :: 0 <= k < |got| ==> r[k] == (got[k] || start <= k < end)
  {
    seq(|got|, k requires 0 <= k < |got| => got[k] || start <= k < end)
  }

  predicate All(got: seq<bool>) { forall k :: 0 <= k < |got| ==> got[k] }

  function None(n: nat): (r: seq<bool>)
    ensures |r| == n
  {
    seq(n, _ => false)
  }

  /** Or-ing bits start to end into one byte of the mask. */
  lemma OrRange(mask: seq<nat>, i: nat, start: nat, end: nat)
    requires i < |mask| && start <= end <= 8
    requires forall j :: 0 <= j < |mask| ==> mask[j] < Pow2(8)
    ensures var w := Or(mask[i], BitRange(start, end));
            w < Pow2(8)
            && forall k :: 0 <= k < 8 * |mask| ==>
                 (Marked(mask[i := w], k) <==> Marked(mask, k) || 8 * i + start <= k < 8 * i + end)
  {
    hide Bit, Or, Pow2, BitRange;
    var w := Or(mask[i], BitRange(start, end));
    BitRangeBits(start, end, 0);
    OrBound(mask[i], BitRange(start, end), 8);
    forall k | 0 <= k < 8 * |mask|
      ensures Marked(mask[i := w], k) <==> Marked(mask, k) || 8 * i + start <= k < 8 * i + end
    {
      BitRangeBits(start, end, k % 8);
      BitOfOr(mask[i], BitRange(start, end), k % 8);
    }
  }

  /** A whole byte of the mask. */
  lemma FullByte(mask: seq<nat>, i: nat)
    requires i < |mask|
    ensures forall k :: 0 <= k < 8 * |mask| ==> (Marked(mask[i := 0xff], k) <==> Marked(mask, k) || k / 8 == i)
  {
    hide Bit;
    forall k | 0 <= k < 8 * |mask| ensures Marked(mask[i := 0xff], k) <==> Marked(mask, k) || k / 8 == i {
      if k / 8 == i { AllOnes(k % 8); }
    }
  }

  lemma AllOnes(k: nat)
    requires k < 8
    ensures Bit(0xff, k) && Pow2(8) == 256
  {
    assert Pow2(8) == 256 by { assert Pow2(4) == 16; Pow2Add(4, 4); }
    BitOfLowOnes(8, k);
  }

  /** A byte of the mask is full iff its bits all are. */
  lemma ByteFull(mask: seq<nat>, i: nat, r: nat)
    requires i < |mask| && mask[i] < Pow2(8) && r <= 8
    requires forall k :: 8 * i + r <= k < 8 * i + 8 ==> !Marked(mask, k)
    ensures mask[i] == Pow2(r) - 1 <==> forall k :: 8 * i <= k < 8 * i + r ==> Marked(mask, k)
  {
    hide Bit, Pow2;
    LowOnesExactly(mask[i], 8, r);
    if LowBitsSet(mask[i], 8, r) {
      forall k | 8 * i <= k < 8 * i + r ensures Marked(mask, k) { assert Bit(mask[i], k - 8 * i) == (k - 8 * i < r); }
    } else if forall k :: 8 * i <= k < 8 * i + r ==> Marked(mask, k) {
      forall j | 0 <= j < 8 ensures Bit(mask[i], j) == (j < r) {
        assert (8 * i + j) / 8 == i && (8 * i + j) % 8 == j;
        if j < r { assert Marked(mask, 8 * i + j); } else { assert !Marked(mask, 8 * i + j); }
      }
    }
  }

  /** got after marking a run of ranges, in any order and with any overlaps. */
  function MarkAll(got: seq<bool>, ranges: seq<(nat, nat)>): (r: seq<bool>)
    ensures |r| == |got|
    decreases |ranges|
  {
    if ranges == [] then got else MarkAll(Add(got, ranges[0].0, ranges[0].1), ranges[1..])
  }

  predicate CoveredBy(ranges: seq<(nat, nat)>, k: nat) {
    exists i :: 0 <= i < |ranges| && ranges[i].0 <= k < ranges[i].1
  }

  /** A byte is marked iff one of the ranges covers it. */
  lemma {:induction false} MarkAllExact(got: seq<bool>, ranges: seq<(nat, nat)>, k: nat)
    requires k < |got|
    ensures MarkAll(got, ranges)[k] <==> got[k] || CoveredBy(ranges, k)
    decreases |ranges|
  {
    if ranges != [] {
      MarkAllExact(Add(got, ranges[0].0, ranges[0].1), ranges[1..], k);
      if CoveredBy(ranges, k) {
        var i :| 0 <= i < |ranges| && ranges[i].0 <= k < ranges[i].1;
        if i > 0 { assert ranges[1..][i-1] == ranges[i]; }
      }
      if CoveredBy(ranges[1..], k) {
        var i :| 0 <= i < |ranges[1..]| && ranges[1..][i].0 <= k < ranges[1..][i].1;
        assert ranges[i+1].0 <= k < ranges[i+1].1;
      }
    }
  }

  /** A fresh message of any length is complete after a run of ranges exactly
      when they cover it. */
  lemma CompleteIffCovered(n: nat, ranges: seq<(nat, nat)>)
    ensures All(MarkAll(None(n), ranges)) <==> forall k :: 0 <= k < n ==> CoveredBy(ranges, k)
  {
    forall k | 0 <= k < n ensures MarkAll(None(n), ranges)[k] <==> CoveredBy(ranges, k) {
      MarkAllExact(None(n), ranges, k);
    }
  }

  class HmFragment {
    const typ: byte
    const seqNo: nat
    const msgLen: nat
    /** The message with its header. */
    const data: array<byte>
    /** The mask of received bytes; null once the message is complete. */
    var reassembly: array?<nat>
    ghost var got: seq<bool>

    ghost predicate Valid()
      reads this, data, reassembly
    {
      && |got| == msgLen && data.Length == HEADER + msgLen && (reassembly as object?) != data
      && data[..HEADER] == Header(typ, msgLen, seqNo, 0, msgLen)
      && (if reassembly == null then All(got) else Shows(reassembly[..], got) && !All(got))
    }

    /** The message body as received so far. */
    ghost function Body(): seq<byte>
      requires data.Length >= HEADER
      reads data
    {
      data[HEADER..]
    }

    /** dtls1_hm_fragment_new: the header is filled in and nothing is received;
        an empty message is complete at once. */
    constructor (typ: byte, seqNo: nat, msgLen: nat)
      ensures Valid() && fresh(data) && (reassembly != null ==> fresh(reassembly))
      ensures this.typ == typ && this.seqNo == seqNo && this.msgLen == msgLen && got == None(msgLen)
      ensures Body() == seq(msgLen, _ => 0)
    {
      this.typ, this.seqNo, this.msgLen := typ, seqNo, msgLen;
      var d := new byte[HEADER + msgLen](_ => 0);
      var header := Header(typ, msgLen, seqNo, 0, msgLen);
      forall i | 0 <= i < HEADER { d[i] := header[i]; }
      assert d[..HEADER] == header;
      data := d;
      reassembly := null;
      got := None(msgLen);
      new;
      hide Bit, Pow2, U16, U24, Header;
      if msgLen > 0 {
        reassembly := new nat[MaskLength(msgLen)](_ => 0);
        forall k | 0 <= k < 8 * MaskLength(msgLen) ensures !Marked(reassembly[..], k) { BitOfZero(k % 8); }
        assert !got[0];
      }
    }

    /** The memcpy of a fragment's body into place. */
    method CopyBody(fragOff: nat, body: seq<byte>)
      requires Valid() && fragOff + |body| <= msgLen
      modifies data
      ensures Valid()
      ensures Body() == old(Body())[..fragOff] + body + old(Body())[fragOff + |body|..]
    {
      ghost var was := data[..];
      forall i | 0 <= i < |body| { data[HEADER + fragOff + i] := body[i]; }
      assert data[..HEADER] == was[..HEADER] && (reassembly != null ==> reassembly[..] == old(reassembly[..]));
      assert data[HEADER..] == was[HEADER..][..fragOff] + body + was[HEADER..][fragOff + |body|..];
    }

    /** dtls1_hm_fragment_mark: marks the bytes from start to end, and drops the
        mask exactly when every byte of the message has been marked. */
    method Mark(start: nat, end: nat)
      requires Valid() && reassembly != null && start <= end <= msgLen
      modifies this`reassembly, this`got, reassembly
      ensures Valid() && got == Add(old(got), start, end)
      ensures reassembly == null || reassembly == old(reassembly)
      ensures reassembly == null <==> All(got)
    {
      hide Bit, Pow2, Or, BitRange;
      ghost var target := Add(got, start, end);
      if start == end {
        assert target == got;
        return;
      }
      SetRange(start, end);
      got := target;
      var complete := IsComplete();
      if complete { reassembly := null; }
    }

    /** Copying and marking a fragment's bytes (d1_both.cc:399-402). */
    method Receive(fragOff: nat, body: seq<byte>)
      requires Valid() && reassembly != null && fragOff + |body| <= msgLen
      modifies this`reassembly, this`got, reassembly, data
      ensures Valid() && got == Add(old(got), fragOff, fragOff + |body|)
      ensures Body() == old(Body())[..fragOff] + body + old(Body())[fragOff + |body|..]
      ensures reassembly == null || reassembly == old(reassembly)
    {
      CopyBody(fragOff, body);
      Mark(fragOff, fragOff + |body|);
    }

    /** Or-ing some bits into one byte of the mask. */
    method OrByte(i: nat, lo: nat, hi: nat)
      requires reassembly != null && i < reassembly.Length && lo <= hi <= 8
      requires forall j :: 0 <= j < reassembly.Length ==> reassembly[j] < Pow2(8)
      modifies reassembly
      ensures forall j :: 0 <= j < reassembly.Length ==> reassembly[j] < Pow2(8)
      ensures forall k :: 0 <= k < 8 * reassembly.Length ==>
                (Marked(reassembly[..], k) <==> Marked(old(reassembly[..]), k) || 8 * i + lo <= k < 8 * i + hi)
    {
      hide Bit, Pow2, Or, BitRange;
      ghost var was := reassembly[..];
      ghost var w := Or(was[i], BitRange(lo, hi));
      OrRange(was, i, lo, hi);
      reassembly[i] := Or(reassembly[i], BitRange(lo, hi));
      ghost var now := reassembly[..];
      assert now == was[i := w] && forall j :: 0 <= j < reassembly.Length ==> reassembly[j] == now[j];
      forall k | 0 <= k < 8 * reassembly.Length
        ensures Marked(reassembly[..], k) <==> Marked(was, k) || 8 * i + lo <= k < 8 * i + hi
      {
        assert Marked(was[i := w], k) <==> Marked(was, k) || 8 * i + lo <= k < 8 * i + hi;
      }
    }

    /** The loop that sets whole bytes of the mask. */
    method FillBytes(from: nat, to: nat, ghost was: seq<nat>, ghost start: nat)
      requires reassembly != null && start <= 8 * from && from <= to <= reassembly.Length == |was|
      requires forall j :: 0 <= j < reassembly.Length ==> reassembly[j] < Pow2(8)
      requires forall k :: 0 <= k < 8 * reassembly.Length ==>
                 (Marked(reassembly[..], k) <==> Marked(was, k) || start <= k < 8 * from)
      modifies reassembly
      ensures forall j :: 0 <= j < reassembly.Length ==> reassembly[j] < Pow2(8)
      ensures forall k :: 0 <= k < 8 * reassembly.Length ==>
                (Marked(reassembly[..], k) <==> Marked(was, k) || start <= k < 8 * to)
    {
      hide Bit, Pow2, Or, BitRange;
      for i := from to to
        invariant forall j :: 0 <= j < reassembly.Length ==> reassembly[j] < Pow2(8)
        invariant forall k :: 0 <= k < 8 * reassembly.Length ==>
                    (Marked(reassembly[..], k) <==> Marked(was, k) || start <= k < 8 * i)
      {
        ghost var before := reassembly[..];
        FullByte(before, i);
        AllOnes(0);
        reassembly[i] := 0xff;
        assert reassembly[..] == before[i := 0xff];
        forall k | 0 <= k < 8 * reassembly.Length
          ensures Marked(reassembly[..], k) <==> Marked(was, k) || start <= k < 8 * (i + 1)
        {
          assert Marked(reassembly[..], k) <==> Marked(before, k) || k / 8 == i;
        }
      }
    }

    /** The part of dtls1_hm_fragment_mark that sets the bits. */
    method SetRange(start: nat, end: nat)
      requires reassembly != null && Shows(reassembly[..], got) && start < end <= |got|
      modifies reassembly
      ensures Shows(reassembly[..], Add(got, start, end))
    {
      hide Bit, Pow2, Or, BitRange;
      ghost var was := reassembly[..];
      var first, last := start / 8, end / 8;
      assert start == 8 * first + start % 8 && end == 8 * last + end % 8 <= 8 * reassembly.Length;
      if first == last {
        OrByte(first, start % 8, end % 8);
        return;
      }
      OrByte(first, start % 8, 8);
      FillBytes(first + 1, last, was, start);
      if end % 8 != 0 { OrByte(last, 0, end % 8); }
    }

    /** The part that checks whether the fragment is complete. */
    method IsComplete() returns (complete: bool)
      requires reassembly != null && Shows(reassembly[..], got) && |got| == msgLen
      ensures complete <==> All(got)
    {
      hide Bit, Pow2, BitRange;
      AllOnes(0);
      ghost var mask := reassembly[..];
      for i := 0 to msgLen / 8
        invariant forall k :: 0 <= k < 8 * i ==> got[k]
      {
        ByteFull(mask, i, 8);
        if reassembly[i] != 0xff {
          ghost var k :| 8 * i <= k < 8 * i + 8 && !Marked(mask, k);
          assert !got[k];
          return false;
        }
        forall k | 8 * i <= k < 8 * i + 8 ensures got[k] { assert Marked(mask, k); }
      }
      if msgLen % 8 != 0 {
        var i, r := msgLen / 8, msgLen % 8;
        LowRange(r);
        ByteFull(mask, i, r);
        if reassembly[i] != BitRange(0, r) {
          ghost var k :| 8 * i <= k < 8 * i + r && !Marked(mask, k);
          assert !got[k];
          return false;
        }
        forall k | 8 * i <= k < 8 * i + r ensures got[k] { assert Marked(mask, k); }
      }
      return true;
    }
  }

  lemma LowRange(r: nat)
    requires r <= 8
    ensures BitRange(0, r) == Pow2(r) - 1
  {
    hide Pow2, BitRange, Bit;
    Pow2Monotone(r, 8);
    forall k | 0 <= k < 8 ensures Bit(BitRange(0, r), k) == Bit(Pow2(r) - 1, k) {
      BitRangeBits(0, r, k);
      BitOfLowOnes(r, k);
    }
    BitRangeBits(0, r, 0);
    SameBitsEqual(BitRange(0, r), Pow2(r) - 1, 8);
  }
}
