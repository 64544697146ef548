/** A sender, a receiver and a network that loses, duplicates, reorders and
    splits up: the whole of d1_both.cc put together. The receiver hands out the
    messages the sender hashed, in order and whole, over every run; and every
    message of a flight whose fragments have all arrived is handed out.
    Sections 4.2.2 to 4.2.4 and 4.2.6 of RFC 6347. */
module DtlsDelivery {
  import opened Wrappers
  import opened DtlsInbox
  import opened DtlsOutbox
  import R = DtlsReassembly

  /** A handshake message; its number is its place in what was sent. */
  datatype Plain = Plain(typ: byte, body: seq<byte>)

  function RawOf(sent: seq<Plain>, i: nat): seq<byte>
    requires i < |sent|
  {
    R.Raw(sent[i].typ, i, sent[i].body)
  }

  /** Message i as the receiver must see it. */
  function Delivery(sent: seq<Plain>, i: nat): Message
    requires i < |sent|
  {
    Message(sent[i].typ, sent[i].body, RawOf(sent, i))
  }

  /** A fragment cut from a message that was sent. */
  predicate Honest(sent: seq<Plain>, f: Fragment) {
    && f.seqNo < |sent| && f.typ == sent[f.seqNo].typ && f.msgLen == |sent[f.seqNo].body|
    && f.fragOff + |f.body| <= f.msgLen && f.body == sent[f.seqNo].body[f.fragOff..f.fragOff + |f.body|]
  }

  /** A slot whose marked bytes are those of the message that was sent. */
  predicate HonestSlot(sent: seq<Plain>, s: Slot) {
    && s.seqNo < |sent| && s.typ == sent[s.seqNo].typ && |s.body| == |sent[s.seqNo].body| == |s.got|
    && forall k :: 0 <= k < |s.got| && s.got[k] ==> s.body[k] == sent[s.seqNo].body[k]
  }

  predicate HonestInbox(sent: seq<Plain>, b: Inbox) {
    RingOk(b) && forall i :: 0 <= i < |b.slots| && b.slots[i].Some? ==> HonestSlot(sent, b.slots[i].value)
  }

  /** What the peer may have put into one record. */
  function Packed(fs: seq<Fragment>): seq<byte> {
    if fs == [] then [] else Write(fs[0]) + Packed(fs[1..])
  }

  lemma {:induction false} ParsePacked(fs: seq<Fragment>)
    requires forall f :: f in fs ==> Encodable(f)
    ensures Parse(Packed(fs)) == (fs, true)
  {
    hide Encodable, Write, ParseFragment;
    if fs != [] {
      ParseWritten(fs[0], Packed(fs[1..]));
      assert fs[0] in fs && forall f :: f in fs[1..] ==> f in fs;
      ParsePacked(fs[1..]);
      assert Packed(fs) != [];
      assert [fs[0]] + fs[1..] == fs;
    }
  }

  // ----- safety of the receiver -----

  lemma FillHonest(sent: seq<Plain>, s: Slot, f: Fragment)
    requires HonestSlot(sent, s) && Honest(sent, f) && s.seqNo == f.seqNo
    ensures f.fragOff + |f.body| <= |s.body| == |s.got| && HonestSlot(sent, Fill(s, f))
  {
    var s', m := Fill(s, f), sent[f.seqNo].body;
    forall k | 0 <= k < |s'.got| && s'.got[k] ensures s'.body[k] == m[k] {
      if f.fragOff <= k < f.fragOff + |f.body| { assert f.body[k - f.fragOff] == m[k]; }
    }
  }

  lemma OpenKeepsHonest(sent: seq<Plain>, b: Inbox, f: Fragment, rEpoch: nat, maxLen: nat)
    requires HonestInbox(sent, b) && Honest(sent, f)
    ensures HonestInbox(sent, OpenFragment(b, f, rEpoch, maxLen).inbox)
  {
    OpenKeepsRing(b, f, rEpoch, maxLen);
    if b.readSeq <= f.seqNo < b.readSeq + |b.slots| {
      var i := f.seqNo % |b.slots|;
      if b.slots[i].Some? {
        SlotIsTheMessages(b, f.seqNo);
        FillHonest(sent, b.slots[i].value, f);
      } else {
        FillHonest(sent, Slot(f.typ, f.seqNo, seq(f.msgLen, _ => 0), R.None(f.msgLen)), f);
      }
    }
  }

  lemma {:induction false} OpenAllKeepsHonest(sent: seq<Plain>, b: Inbox, fs: seq<Fragment>, rEpoch: nat, maxLen: nat)
    requires HonestInbox(sent, b) && forall f :: f in fs ==> Honest(sent, f)
    ensures HonestInbox(sent, OpenAll(b, fs, rEpoch, maxLen).inbox)
    decreases |fs|
  {
    hide Honest, OpenFragment;
    if fs != [] {
      assert fs[0] in fs && forall f :: f in fs[1..] ==> f in fs;
      OpenKeepsHonest(sent, b, fs[0], rEpoch, maxLen);
      match OpenFragment(b, fs[0], rEpoch, maxLen)
      case Alert(_) =>
      case Going(b') => OpenAllKeepsHonest(sent, b', fs[1..], rEpoch, maxLen);
    }
  }

  /** What is handed out is the next message, byte for byte as it was hashed. */
  lemma CurrentIsSent(sent: seq<Plain>, b: Inbox)
    requires HonestInbox(sent, b) && Current(b).Some?
    ensures b.readSeq < |sent| && Current(b).value == Delivery(sent, b.readSeq)
  {
    SlotIsTheMessages(b, b.readSeq);
    var s := b.slots[b.readSeq % |b.slots|].value;
    assert s.body == sent[b.readSeq].body;
  }

  lemma MoreSent(sent: seq<Plain>, b: Inbox, m: Plain)
    requires HonestInbox(sent, b)
    ensures HonestInbox(sent + [m], b)
  {
  }

  // ----- the whole system -----

  /** Everything there is: what was hashed, the sender's flight and cursor, the
      fragments that were ever on the wire, and the receiver. */
  datatype World = World(sent: seq<Plain>, flight: seq<OutMessage>, cursor: Cursor, complete: bool,
                         network: set<Fragment>, inbox: Inbox, delivered: seq<Message>)

  datatype Step =
    | AddMessage(m: Plain, epoch: nat)
    | AddCcs(epoch: nat)
    | Transmit(items: seq<Item>, lost: seq<Item>) // any part of the flight; lost items do not reach the wire
    | Flush
    | Rewind // retransmission starts again from the first message
    | Receive(fs: seq<Fragment>, rEpoch: nat, maxLen: nat) // any fragments seen so far, any number of times
    | Take

  function Fragments(items: seq<Item>): set<Fragment> {
    set it <- items | it.FragItem? :: it.f
  }

  predicate Enabled(w: World, s: Step) {
    match s
    case AddMessage(m, _) => |w.sent| < 0x1_0000 && |m.body| < 0x100_0000
    case Transmit(items, lost) => AdvanceAll(w.flight, w.cursor, items + lost).Some?
    case Receive(fs, _, _) => forall f :: f in fs ==> f in w.network
    case Take => RingOk(w.inbox) && Current(w.inbox).Some?
    case _ => true
  }

  /** add_outgoing: a finished flight is cleared first. */
  function Added(w: World, m: OutMessage): World {
    if w.complete then w.(flight := [m], cursor := Cursor(0, 0), complete := false)
    else w.(flight := w.flight + [m])
  }

  ghost function Apply(w: World, s: Step): World
    requires Enabled(w, s) && RingOk(w.inbox)
  {
    match s
    case AddMessage(m, epoch) => Added(w, Handshake(R.Raw(m.typ, |w.sent|, m.body), epoch)).(sent := w.sent + [m])
    case AddCcs(epoch) => Added(w, Ccs(epoch))
    case Transmit(items, lost) =>
      w.(cursor := AdvanceAll(w.flight, w.cursor, items + lost).value, network := w.network + Fragments(items))
    case Flush => w.(complete := true)
    case Rewind => w.(cursor := Cursor(0, 0))
    case Receive(fs, rEpoch, maxLen) => w.(inbox := OpenPayload(w.inbox, Packed(fs), rEpoch, maxLen).inbox)
    case Take => w.(delivered := w.delivered + [Current(w.inbox).value], inbox := Next(w.inbox))
  }

  /** A message of the flight is one of those that were hashed. */
  predicate Outgoing(sent: seq<Plain>, m: OutMessage) {
    m.Handshake? ==> exists i :: 0 <= i < |sent| && m.data == RawOf(sent, i)
  }

  ghost predicate Good(w: World) {
    && |w.sent| <= 0x1_0000 && (forall i :: 0 <= i < |w.sent| ==> |w.sent[i].body| < 0x100_0000)
    && (forall m :: m in w.flight ==> Outgoing(w.sent, m))
    && (forall f :: f in w.network ==> Honest(w.sent, f))
    && Numbered(w.flight, |w.sent|)
    && HonestInbox(w.sent, w.inbox)
    && Prefix(w.sent, w.delivered, w.inbox.readSeq)
  }

  /** The first n messages, in order, are what was delivered. */
  predicate Prefix(sent: seq<Plain>, delivered: seq<Message>, n: nat) {
    |delivered| == n <= |sent| && forall i :: 0 <= i < n ==> delivered[i] == Delivery(sent, i)
  }

  /** An item that the cursor moves over is cut from a message that was sent. */
  lemma ItemHonest(sent: seq<Plain>, flight: seq<OutMessage>, c: Cursor, item: Item)
    requires |sent| <= 0x1_0000 && forall i :: 0 <= i < |sent| ==> |sent[i].body| < 0x100_0000
    requires forall m :: m in flight ==> Outgoing(sent, m)
    requires Advance(flight, c, item).Some? && item.FragItem?
    ensures Honest(sent, item.f)
  {
    hide Single, R.Raw;
    var m := flight[c.written];
    assert Outgoing(sent, m);
    var i :| 0 <= i < |sent| && m.data == RawOf(sent, i);
    RawIsSingle(sent[i].typ, i, sent[i].body);
  }

  lemma {:induction false} ItemsHonest(sent: seq<Plain>, flight: seq<OutMessage>, c: Cursor, items: seq<Item>, it: Item)
    requires |sent| <= 0x1_0000 && forall i :: 0 <= i < |sent| ==> |sent[i].body| < 0x100_0000
    requires forall m :: m in flight ==> Outgoing(sent, m)
    requires AdvanceAll(flight, c, items).Some? && it in items && it.FragItem?
    ensures Honest(sent, it.f)
    decreases |items|
  {
    hide Advance, Outgoing, Honest;
    if it == items[0] {
      ItemHonest(sent, flight, c, it);
    } else {
      ItemsHonest(sent, flight, Advance(flight, c, items[0]).value, items[1..], it);
    }
  }

  lemma HonestEncodable(sent: seq<Plain>, f: Fragment)
    requires |sent| <= 0x1_0000 && forall i :: 0 <= i < |sent| ==> |sent[i].body| < 0x100_0000
    requires Honest(sent, f)
    ensures Encodable(f)
  {
  }

  lemma AddKeepsGood(w: World, m: Plain, epoch: nat)
    requires Good(w) && Enabled(w, AddMessage(m, epoch))
    ensures Good(Apply(w, AddMessage(m, epoch)))
  {
    hide R.Raw, RingOk, HonestSlot, Numbered, Single;
    var w' := Apply(w, AddMessage(m, epoch));
    MoreSent(w.sent, w.inbox, m);
    RawIsSingle(m.typ, |w.sent|, m.body);
    AddKeepsNumbered(w, Handshake(R.Raw(m.typ, |w.sent|, m.body), epoch));
    forall o | o in w'.flight ensures Outgoing(w'.sent, o) {
      if o in w.flight && o.Handshake? {
        assert Outgoing(w.sent, o);
        var i :| 0 <= i < |w.sent| && o.data == RawOf(w.sent, i);
        assert o.data == RawOf(w'.sent, i);
      } else if o.Handshake? {
        assert o.data == RawOf(w'.sent, |w.sent|);
      }
    }
    assert forall i :: 0 <= i < |w.sent| ==> Delivery(w'.sent, i) == Delivery(w.sent, i);
  }

  /** A flight started afresh or made longer by the next message keeps its numbers
      apart. */
  lemma AddKeepsNumbered(w: World, m: OutMessage)
    requires Numbered(w.flight, |w.sent|)
    requires m.Handshake? ==> Single(m.data).Some? && Single(m.data).value.seqNo == |w.sent|
    ensures Numbered(Added(w, m).flight, if m.Handshake? then |w.sent| + 1 else |w.sent|)
  {
    hide Single;
    AddedNumbered(w.flight, m, |w.sent|);
    AddedNumbered([], m, |w.sent|);
    assert [] + [m] == [m];
  }

  lemma TransmitKeepsGood(w: World, items: seq<Item>, lost: seq<Item>)
    requires Good(w) && Enabled(w, Transmit(items, lost))
    ensures Good(Apply(w, Transmit(items, lost)))
  {
    hide Outgoing, Honest, HonestInbox, AdvanceAll, Prefix, Numbered;
    forall f | f in Fragments(items) ensures Honest(w.sent, f) {
      assert FragItem(f) in items + lost;
      ItemsHonest(w.sent, w.flight, w.cursor, items + lost, FragItem(f));
    }
  }

  lemma ReceiveKeepsGood(w: World, fs: seq<Fragment>, rEpoch: nat, maxLen: nat)
    requires Good(w) && Enabled(w, Receive(fs, rEpoch, maxLen))
    ensures Good(Apply(w, Receive(fs, rEpoch, maxLen)))
  {
    hide Outgoing, Honest, Encodable, HonestSlot, RingOk, Prefix, Numbered;
    forall f | f in fs ensures Encodable(f) { HonestEncodable(w.sent, f); }
    ParsePacked(fs);
    OpenAllKeepsHonest(w.sent, w.inbox, fs, rEpoch, maxLen);
  }

  lemma TakeKeepsGood(w: World)
    requires Good(w) && Enabled(w, Take)
    ensures Good(Apply(w, Take))
  {
    hide Outgoing, Honest, HonestInbox, Delivery, Current, Numbered;
    CurrentIsSent(w.sent, w.inbox);
    NextKeepsHonest(w.sent, w.inbox);
  }

  /** Every step keeps the invariant. */
  lemma StepKeepsGood(w: World, s: Step)
    requires Good(w) && Enabled(w, s)
    ensures Good(Apply(w, s))
  {
    hide Honest, HonestInbox, Prefix, R.Raw, Numbered, Single;
    match s
    case AddCcs(epoch) => AddKeepsNumbered(w, Ccs(epoch));
    case AddMessage(m, epoch) => AddKeepsGood(w, m, epoch);
    case Transmit(items, lost) => TransmitKeepsGood(w, items, lost);
    case Receive(fs, rEpoch, maxLen) => ReceiveKeepsGood(w, fs, rEpoch, maxLen);
    case Take => TakeKeepsGood(w);
    case _ =>
  }

  /** The states of a run from the start, each reached by an enabled step. */
  ghost predicate Run(flight: nat, ws: seq<World>, steps: seq<Step>) {
    && |ws| == |steps| + 1 && flight >= 1
    && ws[0] == World([], [], Cursor(0, 0), false, {}, Empty(flight), [])
    && forall i :: 0 <= i < |steps| ==>
         RingOk(ws[i].inbox) && Enabled(ws[i], steps[i]) && ws[i+1] == Apply(ws[i], steps[i])
  }

  lemma {:induction false} RunKeepsGood(flight: nat, ws: seq<World>, steps: seq<Step>, n: nat)
    requires Run(flight, ws, steps) && n < |ws|
    ensures Good(ws[n])
  {
    hide Honest, HonestSlot, Enabled, Apply;
    if n > 0 {
      RunKeepsGood(flight, ws, steps, n - 1);
      StepKeepsGood(ws[n-1], steps[n-1]);
    }
  }

  /** End to end: whatever the network does and however often the sender
      retransmits, what the receiver has handed out are the first messages sent,
      in order, and what it hands out now is the next one, with the very bytes the
      sender hashed. */
  lemma DeliveredAsSent(flight: nat, ws: seq<World>, steps: seq<Step>, n: nat)
    requires Run(flight, ws, steps) && n < |ws|
    ensures RingOk(ws[n].inbox) && ws[n].inbox.readSeq == |ws[n].delivered| <= |ws[n].sent|
    ensures forall i :: 0 <= i < |ws[n].delivered| ==> ws[n].delivered[i] == Delivery(ws[n].sent, i)
    ensures var c := Current(ws[n].inbox);
            c.Some? ==> |ws[n].delivered| < |ws[n].sent| && c.value == Delivery(ws[n].sent, |ws[n].delivered|)
  {
    RunKeepsGood(flight, ws, steps, n);
    hide Run, Delivery, R.Raw;
    if Current(ws[n].inbox).Some? { CurrentIsSent(ws[n].sent, ws[n].inbox); }
  }

  // ----- what arrives is handed out -----

  /** The receiver knows of message q. */
  predicate Has(b: Inbox, q: nat)
    requires RingOk(b)
  {
    b.slots[q % |b.slots|].Some?
  }

  /** Byte k of message q has arrived. */
  predicate HasByte(b: Inbox, q: nat, k: nat)
    requires RingOk(b)
  {
    Has(b, q) && k < |b.slots[q % |b.slots|].value.got| && b.slots[q % |b.slots|].value.got[k]
  }

  predicate Within(f: Fragment, q: nat, k: nat) { f.seqNo == q && f.fragOff <= k < f.fragOff + |f.body| }

  /** A fragment cut from a sent message ends the connection exactly if it is the
      first one beyond the window, too long, or not the current message's in the
      encrypted epoch. */
  lemma AlertExactly(sent: seq<Plain>, b: Inbox, f: Fragment, rEpoch: nat, maxLen: nat)
    requires HonestInbox(sent, b) && Honest(sent, f)
    ensures OpenFragment(b, f, rEpoch, maxLen).Alert?
            <==> f.seqNo == b.readSeq + |b.slots| || f.msgLen > maxLen || (rEpoch == 1 && f.seqNo != b.readSeq)
  {
    if b.readSeq <= f.seqNo < b.readSeq + |b.slots| && Has(b, f.seqNo) { SlotIsTheMessages(b, f.seqNo); }
  }

  /** The current epoch and limits admit every message that was sent. */
  predicate Admits(sent: seq<Plain>, b: Inbox, f: Fragment, rEpoch: nat, maxLen: nat) {
    && RingOk(b) && f.seqNo != b.readSeq + |b.slots| && f.msgLen <= maxLen && (rEpoch == 1 ==> f.seqNo == b.readSeq)
  }

  /** One fragment adds exactly its own bytes, to its own message alone. */
  lemma OpenAddsExactly(sent: seq<Plain>, b: Inbox, f: Fragment, rEpoch: nat, maxLen: nat, q: nat, k: nat)
    requires HonestInbox(sent, b) && Honest(sent, f) && Admits(sent, b, f, rEpoch, maxLen)
    requires b.readSeq <= q < b.readSeq + |b.slots| && q < |sent|
    ensures RingOk(OpenFragment(b, f, rEpoch, maxLen).inbox)
    ensures var b' := OpenFragment(b, f, rEpoch, maxLen).inbox;
            (Has(b', q) <==> Has(b, q) || f.seqNo == q)
            && (k < |sent[q].body| ==> (HasByte(b', q, k) <==> HasByte(b, q, k) || Within(f, q, k)))
  {
    OpenKeepsRing(b, f, rEpoch, maxLen);
    var n := |b.slots|;
    if b.readSeq <= f.seqNo < b.readSeq + n {
      if f.seqNo != q && f.seqNo % n == q % n { SameResidue(f.seqNo, q, n); }
      if Has(b, f.seqNo) { SlotIsTheMessages(b, f.seqNo); }
    }
  }

  predicate SomeOf(fs: seq<Fragment>, q: nat) { exists f :: f in fs && f.seqNo == q }
  predicate SomeWith(fs: seq<Fragment>, q: nat, k: nat) { exists f :: f in fs && Within(f, q, k) }

  /** Any fragments, in any order and any number of times, add exactly their
      bytes; none of them ends the connection. */
  lemma {:induction false} ReceivedExactly(sent: seq<Plain>, b: Inbox, fs: seq<Fragment>, rEpoch: nat, maxLen: nat,
                                           q: nat, k: nat)
    requires HonestInbox(sent, b)
    requires forall f :: f in fs ==> Honest(sent, f) && Admits(sent, b, f, rEpoch, maxLen)
    requires b.readSeq <= q < b.readSeq + |b.slots| && q < |sent|
    ensures OpenAll(b, fs, rEpoch, maxLen).Going?
    ensures var b' := OpenAll(b, fs, rEpoch, maxLen).inbox;
            (Has(b', q) <==> Has(b, q) || SomeOf(fs, q))
            && (k < |sent[q].body| ==> (HasByte(b', q, k) <==> HasByte(b, q, k) || SomeWith(fs, q, k)))
    decreases |fs|
  {
    hide Honest, HonestInbox, OpenFragment, Within, Has, HasByte;
    if fs != [] {
      var f, rest := fs[0], fs[1..];
      assert f in fs && forall g :: g in fs <==> g == f || g in rest;
      AlertExactly(sent, b, f, rEpoch, maxLen);
      OpenKeepsRing(b, f, rEpoch, maxLen);
      OpenKeepsHonest(sent, b, f, rEpoch, maxLen);
      OpenAddsExactly(sent, b, f, rEpoch, maxLen, q, k);
      ReceivedExactly(sent, OpenFragment(b, f, rEpoch, maxLen).inbox, rest, rEpoch, maxLen, q, k);
    }
  }

  /** The current message is ready exactly if something of it has arrived and all
      of its bytes have. */
  lemma ReadyExactly(sent: seq<Plain>, b: Inbox)
    requires HonestInbox(sent, b) && b.readSeq < |sent|
    ensures Current(b).Some?
       <==> Has(b, b.readSeq) && forall k :: 0 <= k < |sent[b.readSeq].body| ==> HasByte(b, b.readSeq, k)
  {
    var s := b.slots[b.readSeq % |b.slots|];
    if s.Some? {
      SlotIsTheMessages(b, b.readSeq);
      var got := s.value.got;
      assert forall k :: 0 <= k < |got| ==> (got[k] <==> HasByte(b, b.readSeq, k));
    }
  }

  /** All of message q has arrived. */
  ghost predicate Arrived(sent: seq<Plain>, b: Inbox, q: nat)
    requires RingOk(b) && q < |sent|
  {
    Has(b, q) && forall k :: 0 <= k < |sent[q].body| ==> HasByte(b, q, k)
  }

  /** A complete transmission has an item for every byte of every message. */
  lemma {:induction false} ItemsCover(flight: seq<OutMessage>, c: Cursor, items: seq<Item>, j: nat, k: nat)
    requires j < |flight| && flight[j].Handshake? && Single(flight[j].data).Some?
    requires AdvanceAll(flight, c, items).Some? && c.written <= j < AdvanceAll(flight, c, items).value.written
    requires k < |Single(flight[j].data).value.body| && (c.written == j ==> c.offset <= k)
    ensures SomeWith(Fragmented(items), Single(flight[j].data).value.seqNo, k)
    decreases |items|
  {
    hide Single;
    var c' := Advance(flight, c, items[0]).value;
    var rest := Fragmented(items[1..]);
    assert forall f :: f in rest ==> f in Fragmented(items);
    if c.written == j && k < c.offset + |items[0].f.body| {
      assert items[0].f in Fragmented(items);
      assert Within(items[0].f, Single(flight[j].data).value.seqNo, k);
    } else {
      ItemsCover(flight, c', items[1..], j, k);
      var f :| f in rest && Within(f, Single(flight[j].data).value.seqNo, k);
      assert f in Fragmented(items);
    }
  }

  /** And one for every message, however short. */
  lemma {:induction false} ItemsMention(flight: seq<OutMessage>, c: Cursor, items: seq<Item>, j: nat)
    requires j < |flight| && flight[j].Handshake? && Single(flight[j].data).Some?
    requires AdvanceAll(flight, c, items).Some? && c.written <= j < AdvanceAll(flight, c, items).value.written
    ensures SomeOf(Fragmented(items), Single(flight[j].data).value.seqNo)
    decreases |items|
  {
    hide Single;
    var c' := Advance(flight, c, items[0]).value;
    var rest := Fragmented(items[1..]);
    assert forall f :: f in rest ==> f in Fragmented(items);
    if c.written == j {
      assert items[0].f in Fragmented(items);
    } else {
      ItemsMention(flight, c', items[1..], j);
      var f :| f in rest && f.seqNo == Single(flight[j].data).value.seqNo;
      assert f in Fragmented(items);
    }
  }

  function Fragmented(items: seq<Item>): seq<Fragment> {
    if items == [] then [] else (if items[0].FragItem? then [items[0].f] else []) + Fragmented(items[1..])
  }

  /** Taking messages one after the other. */
  function TakeAll(b: Inbox, n: nat): Option<(seq<Message>, Inbox)>
    requires RingOk(b)
    decreases n
  {
    if n == 0 then Some(([], b))
    else if Current(b).None? then None
    else
      NextKeepsRing(b);
      match TakeAll(Next(b), n - 1)
      case None => None
      case Some((ms, b')) => Some(([Current(b).value] + ms, b'))
  }

  lemma NextKeepsArrived(sent: seq<Plain>, b: Inbox, q: nat)
    requires HonestInbox(sent, b) && b.readSeq < q < b.readSeq + |b.slots| && q < |sent| && Arrived(sent, b, q)
    ensures HonestInbox(sent, Next(b)) && Arrived(sent, Next(b), q)
  {
    NextKeepsRing(b);
    if q % |b.slots| == b.readSeq % |b.slots| { SameResidue(q, b.readSeq, |b.slots|); }
    forall k | 0 <= k < |sent[q].body| ensures HasByte(Next(b), q, k) { assert HasByte(b, q, k); }
  }

  /** Messages that have arrived are handed out, in order and as they were sent. */
  lemma {:induction false} ArrivedAreTaken(sent: seq<Plain>, b: Inbox, n: nat)
    requires HonestInbox(sent, b) && n <= |b.slots| && b.readSeq + n <= |sent|
    requires forall q :: b.readSeq <= q < b.readSeq + n ==> Arrived(sent, b, q)
    ensures TakeAll(b, n).Some? && TakeAll(b, n).value.1.readSeq == b.readSeq + n && |TakeAll(b, n).value.0| == n
    ensures forall i :: 0 <= i < n ==> TakeAll(b, n).value.0[i] == Delivery(sent, b.readSeq + i)
    decreases n
  {
    hide HonestSlot, Delivery, Current, Has, HasByte;
    if n > 0 {
      assert Arrived(sent, b, b.readSeq);
      ReadyExactly(sent, b);
      CurrentIsSent(sent, b);
      NextKeepsRing(b);
      NextKeepsHonest(sent, b);
      forall q | Next(b).readSeq <= q < Next(b).readSeq + (n - 1) ensures Arrived(sent, Next(b), q) {
        NextKeepsArrived(sent, b, q);
      }
      ArrivedAreTaken(sent, Next(b), n - 1);
    }
  }

  lemma NextKeepsHonest(sent: seq<Plain>, b: Inbox)
    requires HonestInbox(sent, b)
    ensures HonestInbox(sent, Next(b))
  {
    NextKeepsRing(b);
  }

  // ----- over several records, with messages taken in between -----

  /** What the receiver does: it opens a record's fragments in its epoch, or looks
      for the next message and takes it if it is ready. */
  datatype Receiving = Open(fs: seq<Fragment>, rEpoch: nat, maxLen: nat) | TakeNext

  /** The messages taken, and the inbox afterwards. */
  function After(b: Inbox, es: seq<Receiving>): (r: (seq<Message>, Inbox))
    requires RingOk(b)
    ensures RingOk(r.1) && |r.1.slots| == |b.slots| && r.1.readSeq == b.readSeq + |r.0|
  {
    if es == [] then ([], b)
    else
      var (ms, c) := After(b, es[..|es|-1]);
      match es[|es|-1]
      case Open(fs, rEpoch, maxLen) => (ms, OpenAll(c, fs, rEpoch, maxLen).inbox)
      case TakeNext =>
        if Current(c).None? then (ms, c)
        else
          NextKeepsRing(c);
          (ms + [Current(c).value], Next(c))
  }

  /** All the fragments opened. */
  function Opened(es: seq<Receiving>): seq<Fragment> {
    if es == [] then [] else Opened(es[..|es|-1]) + if es[|es|-1].Open? then es[|es|-1].fs else []
  }

  /** Every fragment is cut from a sent message, and admitted at its time. */
  ghost predicate Admitted(sent: seq<Plain>, b: Inbox, es: seq<Receiving>)
    requires RingOk(b)
  {
    es != [] ==>
      var p, e := es[..|es|-1], es[|es|-1];
      Admitted(sent, b, p)
      && (e.Open? ==> forall f :: f in e.fs ==> Honest(sent, f) && Admits(sent, After(b, p).1, f, e.rEpoch, e.maxLen))
  }

  /** The messages taken are those that were sent, in order. */
  lemma {:induction false} AfterTakesSent(sent: seq<Plain>, b: Inbox, es: seq<Receiving>)
    requires HonestInbox(sent, b) && Admitted(sent, b, es) && b.readSeq <= |sent|
    ensures var (ms, c) := After(b, es);
            HonestInbox(sent, c) && c.readSeq <= |sent|
            && forall i :: 0 <= i < |ms| ==> ms[i] == Delivery(sent, b.readSeq + i)
  {
    hide HonestSlot, Honest, Admits, Delivery, Current;
    if es != [] {
      var p, e := es[..|es|-1], es[|es|-1];
      AfterTakesSent(sent, b, p);
      var c := After(b, p).1;
      match e
      case Open(fs, rEpoch, maxLen) => OpenAllKeepsHonest(sent, c, fs, rEpoch, maxLen);
      case TakeNext =>
        if Current(c).Some? {
          CurrentIsSent(sent, c);
          NextKeepsHonest(sent, c);
        }
    }
  }

  lemma NextExactly(b: Inbox, q: nat, k: nat)
    requires RingOk(b) && b.readSeq < q < b.readSeq + |b.slots|
    ensures RingOk(Next(b)) && (Has(Next(b), q) <==> Has(b, q)) && (HasByte(Next(b), q, k) <==> HasByte(b, q, k))
  {
    NextKeepsRing(b);
    if q % |b.slots| == b.readSeq % |b.slots| { SameResidue(q, b.readSeq, |b.slots|); }
  }

  /** Of a message that is not taken yet, exactly those bytes have arrived that had
      arrived before or are in some fragment, in whatever record it came. */
  lemma {:induction false} AfterExactly(sent: seq<Plain>, b: Inbox, es: seq<Receiving>, q: nat, k: nat)
    requires HonestInbox(sent, b) && Admitted(sent, b, es) && b.readSeq <= |sent|
    requires q < b.readSeq + |b.slots| && After(b, es).1.readSeq <= q < |sent|
    ensures var c := After(b, es).1;
            (Has(c, q) <==> Has(b, q) || SomeOf(Opened(es), q))
            && (k < |sent[q].body| ==> (HasByte(c, q, k) <==> HasByte(b, q, k) || SomeWith(Opened(es), q, k)))
  {
    hide HonestSlot, Honest, Admits, Current, Has, HasByte, Within;
    if es != [] {
      var p, e := es[..|es|-1], es[|es|-1];
      AfterTakesSent(sent, b, p);
      AfterExactly(sent, b, p, q, k);
      var c := After(b, p).1;
      match e
      case Open(fs, rEpoch, maxLen) =>
        ReceivedExactly(sent, c, fs, rEpoch, maxLen, q, k);
        SomeOfEither(Opened(p), fs, q, k);
      case TakeNext => if Current(c).Some? { NextExactly(c, q, k); }
    }
  }

  lemma SomeOfEither(fs: seq<Fragment>, gs: seq<Fragment>, q: nat, k: nat)
    ensures SomeOf(fs + gs, q) <==> SomeOf(fs, q) || SomeOf(gs, q)
    ensures SomeWith(fs + gs, q, k) <==> SomeWith(fs, q, k) || SomeWith(gs, q, k)
  {
    hide Within;
    assert forall f :: f in fs + gs <==> f in fs || f in gs;
  }

  /** If what a complete transmission of a flight put on the wire of message q has
      been opened, in any records, epochs and order, with duplicates, other
      fragments and taken messages in between, then q has arrived, unless it has
      been taken already. */
  lemma FlightArrives(sent: seq<Plain>, flight: seq<OutMessage>, items: seq<Item>, b: Inbox, es: seq<Receiving>,
                      j: nat, q: nat)
    requires |sent| <= 0x1_0000 && forall i :: 0 <= i < |sent| ==> |sent[i].body| < 0x100_0000
    requires AdvanceAll(flight, Cursor(0, 0), items) == Some(Cursor(|flight|, 0))
    requires HonestInbox(sent, b) && Admitted(sent, b, es) && b.readSeq <= |sent|
    requires forall f :: f in Fragmented(items) && f.seqNo == q ==> f in Opened(es)
    requires q < b.readSeq + |b.slots| && After(b, es).1.readSeq <= q < |sent|
    requires j < |flight| && flight[j].Handshake? && flight[j].data == RawOf(sent, q)
    ensures Arrived(sent, After(b, es).1, q)
  {
    hide Single, R.Raw, HonestSlot, Has, HasByte, Admitted, Opened, After;
    RawIsSingle(sent[q].typ, q, sent[q].body);
    ItemsMention(flight, Cursor(0, 0), items, j);
    AfterExactly(sent, b, es, q, 0);
    forall k | 0 <= k < |sent[q].body| ensures HasByte(After(b, es).1, q, k) {
      ItemsCover(flight, Cursor(0, 0), items, j, k);
      AfterExactly(sent, b, es, q, k);
    }
  }

  /** So all of the next messages that are in the flight are handed out, in order
      and as they were sent: some on the way, and the others now. */
  lemma FlightDelivered(sent: seq<Plain>, flight: seq<OutMessage>, place: seq<nat>, items: seq<Item>, b: Inbox,
                        es: seq<Receiving>)
    requires |sent| <= 0x1_0000 && forall i :: 0 <= i < |sent| ==> |sent[i].body| < 0x100_0000
    requires AdvanceAll(flight, Cursor(0, 0), items) == Some(Cursor(|flight|, 0))
    requires HonestInbox(sent, b) && Admitted(sent, b, es)
    requires |place| <= |b.slots| && b.readSeq + |place| <= |sent|
    requires forall f :: f in Fragmented(items) && b.readSeq <= f.seqNo < b.readSeq + |place| ==> f in Opened(es)
    requires forall i :: 0 <= i < |place| ==>
               place[i] < |flight| && flight[place[i]].Handshake? && flight[place[i]].data == RawOf(sent, b.readSeq + i)
    ensures var (ms, c) := After(b, es);
            && b.readSeq + |ms| <= |sent| && (forall i :: 0 <= i < |ms| ==> ms[i] == Delivery(sent, b.readSeq + i))
            && (|ms| < |place| ==>
                  var taken := TakeAll(c, |place| - |ms|);
                  taken.Some? && |taken.value.0| == |place| - |ms|
                  && forall i :: 0 <= i < |place| - |ms| ==> taken.value.0[i] == Delivery(sent, b.readSeq + |ms| + i))
  {
    hide Delivery, AdvanceAll, HonestSlot, RawOf, Admitted, Arrived, Opened, After;
    AfterTakesSent(sent, b, es);
    var (ms, c) := After(b, es);
    if |ms| < |place| {
      forall q | c.readSeq <= q < c.readSeq + (|place| - |ms|) ensures Arrived(sent, c, q) {
        FlightArrives(sent, flight, items, b, es, place[q - b.readSeq], q);
      }
      ArrivedAreTaken(sent, c, |place| - |ms|);
    }
  }

  /** Records of the encrypted epoch with fragments of message q alone. */
  ghost predicate Encrypted(sent: seq<Plain>, late: seq<Receiving>, q: nat) {
    forall e :: e in late ==>
      e.Open? && e.rEpoch == 1 && forall f :: f in e.fs ==> Honest(sent, f) && f.seqNo == q && f.msgLen <= e.maxLen
  }

  /** The last flight fits: whatever was received before, and however the message
      before the ChangeCipherSpec was cut and arrived, it is taken then; and the
      Finished may come in the encrypted epoch, in any fragments and records. */
  lemma {:induction false} LastFlightAdmitted(sent: seq<Plain>, b: Inbox, es: seq<Receiving>, late: seq<Receiving>)
    requires HonestInbox(sent, b) && Admitted(sent, b, es) && After(b, es).1.readSeq < |sent|
    requires Arrived(sent, After(b, es).1, After(b, es).1.readSeq)
    requires Encrypted(sent, late, After(b, es).1.readSeq + 1)
    ensures Admitted(sent, b, es + [TakeNext] + late)
    ensures After(b, es + [TakeNext] + late).1.readSeq == After(b, es).1.readSeq + 1
    decreases |late|
  {
    hide HonestSlot, Honest, Current, Has, HasByte;
    var all := es + [TakeNext] + late;
    if late == [] {
      assert all == es + [TakeNext] && all[..|all|-1] == es;
      AfterTakesSent(sent, b, es);
      ReadyExactly(sent, After(b, es).1);
      AfterOne(b, es, TakeNext);
    } else {
      var early, e := late[..|late|-1], late[|late|-1];
      assert all == (es + [TakeNext] + early) + [e] && all[..|all|-1] == es + [TakeNext] + early && all[|all|-1] == e;
      assert e in late && forall x :: x in early ==> x in late;
      LastFlightAdmitted(sent, b, es, early);
      AfterOne(b, es + [TakeNext] + early, e);
    }
  }

  /** The receiver's part of a step, and of a run. */
  function Part(s: Step): seq<Receiving> {
    match s
    case Receive(fs, rEpoch, maxLen) => [Open(fs, rEpoch, maxLen)]
    case Take => [TakeNext]
    case _ => []
  }

  function ReceiverPart(steps: seq<Step>): seq<Receiving> {
    if steps == [] then [] else ReceiverPart(steps[..|steps|-1]) + Part(steps[|steps|-1])
  }

  /** A record's payload is opened as the fragments that were packed into it. */
  lemma OpenPacked(w: World, fs: seq<Fragment>, rEpoch: nat, maxLen: nat)
    requires Good(w) && Enabled(w, Receive(fs, rEpoch, maxLen))
    ensures OpenPayload(w.inbox, Packed(fs), rEpoch, maxLen) == OpenAll(w.inbox, fs, rEpoch, maxLen)
  {
    hide Honest, HonestSlot, Prefix, Outgoing, Numbered, OpenAll;
    forall f | f in fs ensures Encodable(f) { HonestEncodable(w.sent, f); }
    ParsePacked(fs);
  }

  /** One step of the system is its receiver's part. */
  lemma StepReceives(w: World, s: Step, b: Inbox, es: seq<Receiving>, before: seq<Message>)
    requires Good(w) && Enabled(w, s) && RingOk(b)
    requires w.inbox == After(b, es).1 && w.delivered == before + After(b, es).0
    ensures var w' := Apply(w, s);
            w'.inbox == After(b, es + Part(s)).1 && w'.delivered == before + After(b, es + Part(s)).0
  {
    hide Honest, HonestSlot, Current, RingOk, Prefix, Outgoing, Numbered, OpenAll, After;
    match s
    case Receive(fs, rEpoch, maxLen) =>
      OpenPacked(w, fs, rEpoch, maxLen);
      AfterOne(b, es, Open(fs, rEpoch, maxLen));
    case Take =>
      AfterOne(b, es, TakeNext);
      assert before + (After(b, es).0 + [Current(w.inbox).value]) == w.delivered + [Current(w.inbox).value];
    case _ => assert es + [] == es;
  }

  /** In a run of the whole system the receiver does just its part. */
  lemma {:induction false} RunReceives(flight: nat, ws: seq<World>, steps: seq<Step>, i: nat, j: nat)
    requires Run(flight, ws, steps) && i <= j < |ws|
    ensures RingOk(ws[i].inbox)
    ensures var (ms, c) := After(ws[i].inbox, ReceiverPart(steps[i..j]));
            ws[j].inbox == c && ws[j].delivered == ws[i].delivered + ms
    decreases j - i
  {
    hide Good, Apply, After, RingOk, ReceiverPart, Part;
    RunKeepsGood(flight, ws, steps, i);
    GoodRing(ws[i]);
    if i < j {
      RunReceives(flight, ws, steps, i, j - 1);
      RunKeepsGood(flight, ws, steps, j - 1);
      StepReceives(ws[j-1], steps[j-1], ws[i].inbox, ReceiverPart(steps[i..j-1]), ws[i].delivered);
      PartAppended(steps, i, j);
    } else {
      NothingReceived(ws[i].inbox);
      assert steps[i..i] == [] && ws[i].delivered + [] == ws[i].delivered;
    }
  }

  lemma GoodRing(w: World)
    requires Good(w)
    ensures RingOk(w.inbox)
  {
  }

  lemma PartAppended(steps: seq<Step>, i: nat, j: nat)
    requires i < j <= |steps|
    ensures ReceiverPart(steps[i..j]) == ReceiverPart(steps[i..j-1]) + Part(steps[j-1])
  {
    assert steps[i..j][..j-1-i] == steps[i..j-1];
  }

  lemma NothingReceived(b: Inbox)
    requires RingOk(b)
    ensures After(b, ReceiverPart([])) == ([], b)
  {
  }

  lemma AfterOne(b: Inbox, es: seq<Receiving>, e: Receiving)
    requires RingOk(b)
    ensures var (ms, c) := After(b, es);
            After(b, es + [e]) == match e
              case Open(fs, rEpoch, maxLen) => (ms, OpenAll(c, fs, rEpoch, maxLen).inbox)
              case TakeNext => if Current(c).None? then (ms, c) else (ms + [Current(c).value], Next(c))
  {
    hide OpenAll, Current, RingOk;
    assert (es + [e])[..|es|] == es;
  }

  // ----- every transmission of a run -----

  /** In every reachable state, a complete transmission of the flight carries every
      message of it, each byte exactly once. */
  lemma FlightCarriedInRun(flight: nat, ws: seq<World>, steps: seq<Step>, n: nat, items: seq<Item>)
    requires Run(flight, ws, steps) && n < |ws|
    requires AdvanceAll(ws[n].flight, Cursor(0, 0), items) == Some(Cursor(|ws[n].flight|, 0))
    ensures CarriesAll(ws[n].flight, items)
  {
    hide AdvanceAll, Numbered, Run;
    RunKeepsGood(flight, ws, steps, n);
    CompleteCarriesAll(ws[n].flight, items, |ws[n].sent|);
  }

  lemma {:induction false} NoAlert(sent: seq<Plain>, b: Inbox, fs: seq<Fragment>, rEpoch: nat, maxLen: nat)
    requires HonestInbox(sent, b)
    requires forall f :: f in fs ==> Honest(sent, f) && Admits(sent, b, f, rEpoch, maxLen)
    ensures OpenAll(b, fs, rEpoch, maxLen).Going?
    decreases |fs|
  {
    hide Honest, HonestInbox, OpenFragment;
    if fs != [] {
      assert fs[0] in fs && forall g :: g in fs[1..] ==> g in fs;
      AlertExactly(sent, b, fs[0], rEpoch, maxLen);
      OpenKeepsRing(b, fs[0], rEpoch, maxLen);
      OpenKeepsHonest(sent, b, fs[0], rEpoch, maxLen);
      NoAlert(sent, OpenFragment(b, fs[0], rEpoch, maxLen).inbox, fs[1..], rEpoch, maxLen);
    }
  }
}
