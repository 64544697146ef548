/** What a flight's packets must carry: a cursor over the outgoing messages that
    each sealed item moves forward (d1_both.cc:525-580, 630-813). A run of items
    that takes the cursor from the start to the end tiles every message. */
module DtlsOutbox {
  import opened Wrappers
  import opened DtlsInbox
  import R = DtlsReassembly

  /** A DTLS_OUTGOING_MESSAGE: a ChangeCipherSpec, or a handshake message
      serialized as a single fragment. */
  datatype OutMessage = Ccs(epoch: nat) | Handshake(data: seq<byte>, epoch: nat)

  /** What one sealed record carries. */
  datatype Item = CcsItem | FragItem(f: Fragment)

  /** outgoing_written and outgoing_offset. */
  datatype Cursor = Cursor(written: nat, offset: nat)

  /** A message's header and body, when it is a single whole fragment. */
  function Single(data: seq<byte>): Option<Fragment> {
    match ParseFragment(data)
    case None => None
    case Some((f, rest)) => if rest == [] && f.fragOff == 0 && f.msgLen == |f.body| then Some(f) else None
  }

  /** The cursor after an item, or None if that is not what comes next: the
      ChangeCipherSpec, or the next slice of the message from the offset on. */
  function Advance(flight: seq<OutMessage>, c: Cursor, item: Item): Option<Cursor> {
    if c.written >= |flight| then None
    else match flight[c.written]
      case Ccs(_) => if item.CcsItem? && c.offset == 0 then Some(Cursor(c.written + 1, 0)) else None
      case Handshake(data, _) =>
        match Single(data)
        case None => None
        case Some(m) =>
          if !item.FragItem? then None
          else
            var f := item.f;
            var end := c.offset + |f.body|;
            if f.typ == m.typ && f.seqNo == m.seqNo && f.msgLen == m.msgLen && f.fragOff == c.offset
               && end <= |m.body| && f.body == m.body[c.offset..end]
            then if end == |m.body| then Some(Cursor(c.written + 1, 0))
                 else if f.body == [] then None else Some(Cursor(c.written, end))
            else None
  }

  function AdvanceAll(flight: seq<OutMessage>, c: Cursor, items: seq<Item>): Option<Cursor>
    decreases |items|
  {
    if items == [] then Some(c)
    else match Advance(flight, c, items[0])
      case None => None
      case Some(c') => AdvanceAll(flight, c', items[1..])
  }

  lemma {:induction false} AdvanceAppend(flight: seq<OutMessage>, c: Cursor, items: seq<Item>, more: seq<Item>)
    requires AdvanceAll(flight, c, items).Some?
    ensures AdvanceAll(flight, c, items + more) == AdvanceAll(flight, AdvanceAll(flight, c, items).value, more)
    decreases |items|
  {
    hide Advance;
    if items == [] {
      assert items + more == more;
    } else {
      assert (items + more)[0] == items[0] && (items + more)[1..] == items[1..] + more;
      AdvanceAppend(flight, Advance(flight, c, items[0]).value, items[1..], more);
    }
  }

  lemma {:induction false} AdvancePrefix(flight: seq<OutMessage>, c: Cursor, items: seq<Item>, more: seq<Item>)
    requires AdvanceAll(flight, c, items + more).Some?
    ensures AdvanceAll(flight, c, items).Some?
    decreases |items|
  {
    hide Advance;
    if items != [] {
      assert (items + more)[0] == items[0] && (items + more)[1..] == items[1..] + more;
      AdvancePrefix(flight, Advance(flight, c, items[0]).value, items[1..], more);
    }
  }

  lemma AdvanceOne(flight: seq<OutMessage>, c: Cursor, item: Item)
    ensures AdvanceAll(flight, c, [item]) == Advance(flight, c, item)
  {
    hide Advance;
    var c' := Advance(flight, c, item);
    if c'.Some? { assert AdvanceAll(flight, c'.value, []) == Some(c'.value); }
  }

  /** Progress is strict: no item leaves the cursor where it was. */
  lemma AdvanceMoves(flight: seq<OutMessage>, c: Cursor, item: Item)
    requires Advance(flight, c, item).Some?
    ensures var c' := Advance(flight, c, item).value;
            c'.written == c.written + 1 || (c'.written == c.written && c'.offset > c.offset)
  {
  }

  lemma {:induction false} AdvanceAllMoves(flight: seq<OutMessage>, c: Cursor, items: seq<Item>)
    requires AdvanceAll(flight, c, items).Some?
    ensures var c' := AdvanceAll(flight, c, items).value;
            c'.written > c.written || (c'.written == c.written && c'.offset >= c.offset)
    ensures items != [] ==> AdvanceAll(flight, c, items).value != c
    decreases |items|
  {
    if items != [] {
      AdvanceMoves(flight, c, items[0]);
      AdvanceAllMoves(flight, Advance(flight, c, items[0]).value, items[1..]);
    }
  }

  // ----- tiling -----

  /** The bodies of the items that carry a message's fragments, in order. */
  function Carried(items: seq<Item>, seqNo: nat): seq<byte> {
    if items == [] then []
    else (if items[0].FragItem? && items[0].f.seqNo == seqNo then items[0].f.body else []) + Carried(items[1..], seqNo)
  }

  /** Messages of one flight have different sequence numbers. */
  ghost predicate DistinctNumbers(flight: seq<OutMessage>) {
    forall i, j :: 0 <= i < j < |flight| && flight[i].Handshake? && flight[j].Handshake?
                   && Single(flight[i].data).Some? && Single(flight[j].data).Some? ==>
                     Single(flight[i].data).value.seqNo != Single(flight[j].data).value.seqNo
  }

  /** Every handshake message of the flight is one whole fragment, with a number of
      its own below the next one to be given out: what dtls1_add_message builds. */
  ghost predicate Numbered(flight: seq<OutMessage>, next: nat) {
    && (forall i :: 0 <= i < |flight| && flight[i].Handshake? ==>
          Single(flight[i].data).Some? && Single(flight[i].data).value.seqNo < next)
    && DistinctNumbers(flight)
  }

  /** Adding a ChangeCipherSpec, or the next message under the next number, keeps
      the numbers apart. */
  lemma AddedNumbered(flight: seq<OutMessage>, m: OutMessage, next: nat)
    requires Numbered(flight, next)
    requires m.Handshake? ==> Single(m.data).Some? && Single(m.data).value.seqNo == next
    ensures Numbered(flight + [m], if m.Handshake? then next + 1 else next)
  {
    hide Single;
  }

  /** The items carry every message of the flight, each byte exactly once. */
  ghost predicate CarriesAll(flight: seq<OutMessage>, items: seq<Item>) {
    forall k :: 0 <= k < |flight| && flight[k].Handshake? ==>
      match Single(flight[k].data) case None => false case Some(m) => Carried(items, m.seqNo) == m.body
  }

  lemma CompleteCarriesAll(flight: seq<OutMessage>, items: seq<Item>, next: nat)
    requires Numbered(flight, next) && AdvanceAll(flight, Cursor(0, 0), items) == Some(Cursor(|flight|, 0))
    ensures CarriesAll(flight, items)
  {
    hide Single, Advance;
    forall k | 0 <= k < |flight| && flight[k].Handshake?
      ensures match Single(flight[k].data) case None => false case Some(m) => Carried(items, m.seqNo) == m.body
    {
      WholeFlightCarried(flight, items, k);
    }
  }

  /** How much of message k lies between two cursors, as a slice of its body. */
  function Sent(c: Cursor, k: nat, length: nat): nat {
    if c.written > k then length else if c.written == k && c.offset <= length then c.offset else 0
  }

  /** Between two cursors, the fragments of every message are consecutive and
      disjoint slices of it: joined, they are exactly the part of its body from
      the first cursor to the second. */
  lemma {:induction false} FragmentsTile(flight: seq<OutMessage>, c: Cursor, items: seq<Item>, k: nat)
    requires DistinctNumbers(flight) && k < |flight| && flight[k].Handshake? && Single(flight[k].data).Some?
    requires AdvanceAll(flight, c, items).Some?
    ensures var m := Single(flight[k].data).value;
            var c' := AdvanceAll(flight, c, items).value;
            var n := |m.body|;
            Sent(c, k, n) <= Sent(c', k, n)
            && Carried(items, m.seqNo) == m.body[Sent(c, k, n)..Sent(c', k, n)]
    decreases |items|
  {
    hide Single, Advance, DistinctNumbers;
    if items != [] {
      var m := Single(flight[k].data).value;
      var c1 := Advance(flight, c, items[0]).value;
      FragmentsTile(flight, c1, items[1..], k);
      StepTiles(flight, c, items[0], k);
      var c', n := AdvanceAll(flight, c, items).value, |m.body|;
      assert m.body[Sent(c, k, n)..Sent(c1, k, n)] + m.body[Sent(c1, k, n)..Sent(c', k, n)]
             == m.body[Sent(c, k, n)..Sent(c', k, n)];
    }
  }

  lemma StepTiles(flight: seq<OutMessage>, c: Cursor, item: Item, k: nat)
    requires DistinctNumbers(flight) && k < |flight| && flight[k].Handshake? && Single(flight[k].data).Some?
    requires Advance(flight, c, item).Some?
    ensures var m := Single(flight[k].data).value;
            var c' := Advance(flight, c, item).value;
            var n := |m.body|;
            Sent(c, k, n) <= Sent(c', k, n)
            && (if item.FragItem? && item.f.seqNo == m.seqNo then item.f.body else [])
                == m.body[Sent(c, k, n)..Sent(c', k, n)]
  {
    hide Single;
    var m := Single(flight[k].data).value;
    if c.written < k && flight[c.written].Handshake? { assert Single(flight[c.written].data).value.seqNo != m.seqNo; }
    if c.written > k && flight[c.written].Handshake? { assert m.seqNo != Single(flight[c.written].data).value.seqNo; }
  }

  /** A complete transmission carries every message of the flight exactly once. */
  lemma WholeFlightCarried(flight: seq<OutMessage>, items: seq<Item>, k: nat)
    requires DistinctNumbers(flight) && k < |flight| && flight[k].Handshake? && Single(flight[k].data).Some?
    requires AdvanceAll(flight, Cursor(0, 0), items) == Some(Cursor(|flight|, 0))
    ensures Carried(items, Single(flight[k].data).value.seqNo) == Single(flight[k].data).value.body
  {
    FragmentsTile(flight, Cursor(0, 0), items, k);
    var m := Single(flight[k].data).value;
    assert m.body[0..|m.body|] == m.body;
  }

  /** A transmission may be interrupted and resumed any number of times. */
  lemma ResumedFlight(flight: seq<OutMessage>, c: Cursor, items: seq<Item>, more: seq<Item>)
    requires AdvanceAll(flight, Cursor(0, 0), items) == Some(c)
    ensures AdvanceAll(flight, Cursor(0, 0), items + more) == AdvanceAll(flight, c, more)
  {
    AdvanceAppend(flight, Cursor(0, 0), items, more);
  }

  /** Where the cursor has moved past items that were not written, what was
      written does not lead to it: those items are missing from the flight. */
  lemma LostItemsLeaveGap(flight: seq<OutMessage>, c: Cursor, written: seq<Item>, lost: seq<Item>)
    requires AdvanceAll(flight, c, written).Some? && AdvanceAll(flight, c, written + lost).Some?
    ensures AdvanceAll(flight, c, written) == AdvanceAll(flight, c, written + lost) <==> lost == []
  {
    AdvanceAppend(flight, c, written, lost);
    AdvanceAllMoves(flight, AdvanceAll(flight, c, written).value, lost);
  }

  // ----- building a message -----

  /** dtls1_init_message's bytes before the body's length is known, with the
      body and its length added. */
  function Unfinished(typ: byte, seqNo: nat, body: seq<byte>): seq<byte> {
    R.Header(typ, 0, seqNo, 0, |body|) + body
  }

  /** dtls1_finish_message: the fragment length is copied to the message length. */
  function Finish(s: seq<byte>): Option<seq<byte>> {
    if |s| < R.HEADER then None else Some(s[..1] + s[R.HEADER-3..R.HEADER] + s[4..])
  }

  /** The finished message is the single fragment that the transcript hashes. */
  lemma FinishedIsRaw(typ: byte, seqNo: nat, body: seq<byte>)
    ensures Finish(Unfinished(typ, seqNo, body)) == Some(R.Raw(typ, seqNo, body))
  {
    hide R.U16, R.U24;
    var s := Unfinished(typ, seqNo, body);
    HeaderFields(typ, 0, seqNo, 0, |body|, body);
    assert s[..1] == [typ] && s[R.HEADER-3..R.HEADER] == R.U24(|body|);
    assert s[4..] == R.U16(seqNo) + R.U24(0) + R.U24(|body|) + body;
    assert [typ] + R.U24(|body|) + (R.U16(seqNo) + R.U24(0) + R.U24(|body|) + body) == R.Raw(typ, seqNo, body);
  }

  /** Such a message parses as one whole fragment. */
  lemma RawIsSingle(typ: byte, seqNo: nat, body: seq<byte>)
    requires seqNo < 0x1_0000 && |body| < 0x100_0000
    ensures Single(R.Raw(typ, seqNo, body)) == Some(Fragment(typ, |body|, seqNo, 0, body))
  {
    var f := Fragment(typ, |body|, seqNo, 0, body);
    ParseWritten(f, []);
    assert Write(f) + [] == R.Raw(typ, seqNo, body);
  }
}
