/** The receiving half of DTLS1_STATE, updated in place: a ring of HmFragment
    objects (d1_both.cc:253-457). Each method is proved to compute DtlsInbox's
    functions on what the ring holds. */
module DtlsReceiver {
  import opened Wrappers
  import opened DtlsInbox
  import DtlsReply
  import R = DtlsReassembly

  lemma PlaceKeepsRing(b: Inbox, i: nat, s: Slot)
    requires RingOk(b) && i < |b.slots| && s.seqNo % |b.slots| == i
    requires b.readSeq <= s.seqNo < b.readSeq + |b.slots| && |s.got| == |s.body|
    ensures RingOk(b.(slots := b.slots[i := Some(s)]))
  {
  }

  lemma SlotShape(b: Inbox, i: nat)
    requires RingOk(b) && i < |b.slots| && b.slots[i].Some?
    ensures var s := b.slots[i].value;
            s.seqNo % |b.slots| == i && b.readSeq <= s.seqNo < b.readSeq + |b.slots| && |s.got| == |s.body|
  {
  }

  /** A slot that accepts a fragment has the fragment's message length. */
  lemma SlotLength(b: Inbox, f: Fragment)
    requires RingOk(b) && GetIncoming(b, f).Some?
    ensures var s := GetIncoming(b, f).value.slots[f.seqNo % |b.slots|]; s.Some? && |s.value.body| == f.msgLen
  {
  }

  lemma CompleteIffNull(h: R.HmFragment)
    requires h.Valid()
    ensures h.reassembly == null <==> R.All(h.got)
  {
  }

  /** The header stands in front of a message's body. */
  lemma HeaderInPlace(h: R.HmFragment)
    requires h.Valid()
    ensures h.data[..] == R.Header(h.typ, h.msgLen, h.seqNo, 0, h.msgLen) + h.Body()
  {
    assert h.data[..] == h.data[..R.HEADER] + h.data[R.HEADER..];
  }

  lemma PayloadUnfolds(b: Inbox, s: seq<byte>, rEpoch: nat, maxLen: nat)
    requires RingOk(b) && s != []
    ensures RingOk(OpenFragmentOr(b, s, rEpoch, maxLen).inbox)
    ensures OpenPayload(b, s, rEpoch, maxLen)
         == match ParseFragment(s)
            case None => Alert(b)
            case Some((f, rest)) =>
              match OpenFragmentOr(b, s, rEpoch, maxLen)
              case Alert(b') => Alert(b')
              case Going(b') => OpenPayload(b', rest, rEpoch, maxLen)
  {
    if ParseFragment(s).Some? {
      var (f, rest) := ParseFragment(s).value;
      OpenKeepsRing(b, f, rEpoch, maxLen);
      assert ([f] + Parse(rest).0)[1..] == Parse(rest).0;
    }
  }

  /** The outcome of the first fragment of a payload. */
  function OpenFragmentOr(b: Inbox, s: seq<byte>, rEpoch: nat, maxLen: nat): Outcome
    requires RingOk(b)
  {
    match ParseFragment(s) case None => Alert(b) case Some((f, _)) => OpenFragment(b, f, rEpoch, maxLen)
  }

  /** An object of the ring, with its arrays, holds a message. */
  ghost predicate Owned(h: R.HmFragment, s: Slot, ring: object, repr: set<object>)
    reads repr
  {
    && h in repr && h.data in repr && (h.reassembly != null ==> h.reassembly in repr)
    && h.Valid() && (h.data as object) != ring && (h.reassembly as object?) != ring
    && h.typ == s.typ && h.seqNo == s.seqNo && h.msgLen == |s.body| && h.Body() == s.body && h.got == s.got
  }

  /** Two objects share no array. */
  ghost predicate Apart(h: R.HmFragment, k: R.HmFragment)
    reads h, k
  {
    && h != k && h.data != k.data && (h.reassembly as object?) != k.data && (k.reassembly as object?) != h.data
    && (h.reassembly != null ==> h.reassembly != k.reassembly)
  }

  datatype RecordType = ApplicationData | ChangeCipherSpec | HandshakeRecord | OtherRecord
  datatype RecordResult = Success | Discard | Error

  class Receiver {
    const flight: nat
    const incoming: array<R.HmFragment?>
    const flags: DtlsReply.FlightFlags
    var readSeq: nat
    var hasMessage: bool
    var hasChangeCipherSpec: bool
    /** The ring's contents, and the objects it is made of. */
    ghost var inbox: Inbox
    ghost var repr: set<object>

    ghost predicate Valid()
      reads this, repr
    {
      && incoming in repr && {this, flags} !! repr && incoming.Length == flight == |inbox.slots| && flight >= 1
      && readSeq == inbox.readSeq && RingOk(inbox)
      && (forall i :: 0 <= i < flight ==> (incoming[i] == null <==> inbox.slots[i].None?))
      && (forall i :: 0 <= i < flight && incoming[i] != null ==>
            Owned(incoming[i], inbox.slots[i].value, incoming, repr))
      && (forall i, j :: 0 <= i < j < flight && incoming[i] != null && incoming[j] != null ==>
            Apart(incoming[i], incoming[j]))
    }

    constructor (flight: nat, flags: DtlsReply.FlightFlags)
      requires flight >= 1
      ensures Valid() && inbox == Empty(flight) && fresh(repr)
      ensures this.flight == flight && this.flags == flags
    {
      this.flight, this.flags := flight, flags;
      incoming := new R.HmFragment?[flight](_ => null);
      readSeq, hasMessage, hasChangeCipherSpec := 0, false, false;
      inbox := Empty(flight);
      repr := {incoming};
    }

    /** dtls1_is_current_message_complete. */
    method IsCurrentComplete() returns (complete: bool)
      requires Valid()
      ensures complete <==> Current(inbox).Some?
    {
      var h := incoming[readSeq % flight];
      complete := h != null && h.reassembly == null;
    }

    /** dtls1_get_incoming_message. */
    method GetIncomingMessage(f: Fragment) returns (h: R.HmFragment?)
      requires Valid()
      modifies repr, this`inbox, this`repr
      ensures Valid() && fresh(repr - old(repr))
      ensures h == null <==> GetIncoming(old(inbox), f).None?
      ensures h == null ==> inbox == old(inbox)
      ensures h != null ==> inbox == GetIncoming(old(inbox), f).value && h == incoming[f.seqNo % flight]
    {
      if f.seqNo < readSeq || f.seqNo - readSeq >= flight { return null; }
      var idx := f.seqNo % flight;
      h := incoming[idx];
      if h != null {
        SlotIsTheMessages(inbox, f.seqNo);
        assert h.seqNo == f.seqNo;
        if h.typ != f.typ || h.msgLen != f.msgLen { return null; }
        return h;
      }
      h := new R.HmFragment(f.typ, f.seqNo, f.msgLen);
      Insert(idx, h, Slot(f.typ, f.seqNo, seq(f.msgLen, _ => 0), R.None(f.msgLen)));
    }

    /** Storing a new message object in an empty slot. */
    method Insert(idx: nat, h: R.HmFragment, ghost s: Slot)
      requires Valid() && idx < flight && incoming[idx] == null
      requires {h, h.data} !! repr && (h.reassembly != null ==> h.reassembly !in repr)
      requires h.Valid()
      requires h.typ == s.typ && h.seqNo == s.seqNo && h.msgLen == |s.body| == |s.got|
      requires h.Body() == s.body && h.got == s.got
      requires s.seqNo % flight == idx && readSeq <= s.seqNo < readSeq + flight
      modifies incoming, this`inbox, this`repr
      ensures Valid() && repr == old(repr) + {h, h.data} + (if h.reassembly == null then {} else {h.reassembly})
      ensures inbox == old(inbox).(slots := old(inbox).slots[idx := Some(s)]) && incoming[idx] == h
    {
      hide RingOk, R.HmFragment.Valid, R.HmFragment.Body;
      PlaceKeepsRing(inbox, idx, s);
      incoming[idx] := h;
      inbox := inbox.(slots := inbox.slots[idx := Some(s)]);
      repr := repr + {h, h.data} + if h.reassembly == null then {} else {h.reassembly};
    }

    /** Changing the objects of one message leaves the others as they were. */
    twostate lemma OthersStay(i: nat)
      requires old(Valid()) && i < flight && incoming[i] != null && unchanged(this, incoming)
      requires incoming[i].reassembly == null || incoming[i].reassembly == old(incoming[i].reassembly)
      requires forall o :: o in repr && o != incoming[i] && o != incoming[i].data && o != old(incoming[i].reassembly)
                           ==> unchanged(o)
      ensures forall j :: 0 <= j < flight && j != i && incoming[j] != null ==>
                Owned(incoming[j], inbox.slots[j].value, incoming, repr)
      ensures forall j, k :: 0 <= j < k < flight && incoming[j] != null && incoming[k] != null ==>
                Apart(incoming[j], incoming[k])
    {
      hide RingOk, R.HmFragment.Valid, R.HmFragment.Body;
      forall j | 0 <= j < flight && j != i && incoming[j] != null
        ensures old(Apart(incoming[i], incoming[j])) && old(Apart(incoming[j], incoming[i]))
      {
      }
    }

    /** Copying a fragment's body into its message and marking it. */
    method FillSlot(h: R.HmFragment, f: Fragment)
      requires Valid() && f.seqNo % flight < flight && h == incoming[f.seqNo % flight]
      requires h.reassembly != null && f.fragOff + |f.body| <= h.msgLen
      modifies h, h.data, h.reassembly, this`inbox
      ensures Valid()
      ensures var i := f.seqNo % flight;
              old(inbox).slots[i].Some?
              && inbox == old(inbox).(slots := old(inbox).slots[i := Some(Fill(old(inbox).slots[i].value, f))])
    {
      hide RingOk, R.HmFragment.Valid, R.HmFragment.Body, R.All, R.Add, Apart;
      ghost var i := f.seqNo % flight;
      ghost var s := inbox.slots[i].value;
      SlotShape(inbox, i);
      h.Receive(f.fragOff, f.body);
      OthersStay(i);
      PlaceKeepsRing(inbox, i, Fill(s, f));
      inbox := inbox.(slots := inbox.slots[i := Some(Fill(s, f))]);
    }

    /** The loop body of dtls1_open_handshake, for one parsed fragment. */
    method OpenOne(f: Fragment, rEpoch: nat, maxLen: nat) returns (ok: bool)
      requires Valid()
      modifies repr, this`inbox, this`repr
      ensures Valid() && fresh(repr - old(repr))
      ensures match OpenFragment(old(inbox), f, rEpoch, maxLen)
              case Going(b) => ok && inbox == b
              case Alert(b) => !ok && inbox == b
    {
      hide R.HmFragment.Valid, R.HmFragment.Body;
      var fragLen := |f.body|;
      if f.fragOff > f.msgLen || f.fragOff + fragLen > f.msgLen || f.msgLen > maxLen { return false; }
      if rEpoch == 1 && f.seqNo != readSeq { return false; }
      if f.seqNo < readSeq || f.seqNo > readSeq + flight { return true; }
      ghost var before := inbox;
      var h := GetIncomingMessage(f);
      if h == null { return false; }
      SlotLength(before, f);
      CompleteIffNull(h);
      if h.reassembly == null { return true; }
      FillSlot(h, f);
      return true;
    }

    /** The fragments of a handshake record's payload, one after the other. */
    method OpenFragments(payload: seq<byte>, rEpoch: nat, maxLen: nat) returns (ok: bool)
      requires Valid()
      modifies repr, this`inbox, this`repr
      ensures Valid() && fresh(repr - old(repr))
      ensures match OpenPayload(old(inbox), payload, rEpoch, maxLen)
              case Going(b) => ok && inbox == b
              case Alert(b) => !ok && inbox == b
    {
      hide OpenFragment, RingOk, ParseFragment, Owned, Apart;
      var cbs := payload;
      while cbs != []
        invariant Valid() && fresh(repr - old(repr))
        invariant OpenPayload(inbox, cbs, rEpoch, maxLen) == OpenPayload(old(inbox), payload, rEpoch, maxLen)
        decreases |cbs|
      {
        PayloadUnfolds(inbox, cbs, rEpoch, maxLen);
        var parsed := ParseFragment(cbs);
        if parsed.None? { return false; }
        ok := OpenOne(parsed.value.0, rEpoch, maxLen);
        if !ok { return; }
        cbs := parsed.value.1;
      }
      ok := true;
    }

    /** dtls1_open_handshake on an opened record. */
    method OpenHandshake(typ: RecordType, payload: seq<byte>, nullCipher: bool, rEpoch: nat, maxLen: nat)
      returns (result: RecordResult)
      requires Valid()
      modifies repr, this`inbox, this`repr, this`hasChangeCipherSpec
      ensures Valid() && fresh(repr - old(repr))
      ensures typ.HandshakeRecord? ==>
                match OpenPayload(old(inbox), payload, rEpoch, maxLen)
                case Going(b) => result.Success? && inbox == b
                case Alert(b) => result.Error? && inbox == b
      ensures !typ.HandshakeRecord? ==> inbox == old(inbox)
      ensures typ.ApplicationData? ==> result == if nullCipher then Error else Discard
      ensures typ.ChangeCipherSpec? ==> result == if nullCipher && payload == [1] then Success else Error
      ensures typ.OtherRecord? ==> result.Error?
      ensures hasChangeCipherSpec == (old(hasChangeCipherSpec) || (typ.ChangeCipherSpec? && result.Success?))
    {
      match typ
      case ApplicationData => return if nullCipher then Error else Discard;
      case ChangeCipherSpec =>
        if !nullCipher { return Error; }
        if |payload| != 1 || payload[0] != 1 { return Error; }
        hasChangeCipherSpec := true;
        return Success;
      case OtherRecord => return Error;
      case HandshakeRecord =>
        var ok := OpenFragments(payload, rEpoch, maxLen);
        return if ok then Success else Error;
    }

    /** dtls1_get_message. */
    method GetMessage() returns (msg: Option<Message>)
      requires Valid()
      modifies this`hasMessage
      ensures Valid() && msg == Current(inbox)
      ensures hasMessage == (old(hasMessage) || msg.Some?)
    {
      var complete := IsCurrentComplete();
      if !complete { return Option.None; }
      var h := incoming[readSeq % flight];
      HeaderInPlace(h);
      msg := Some(Message(h.typ, h.data[R.HEADER..], h.data[..]));
      hasMessage := true;
    }

    /** dtls1_next_message. */
    method NextMessage()
      requires Valid() && hasMessage && Current(inbox).Some?
      modifies incoming, this`readSeq, this`hasMessage, this`inbox, flags`hasReply
      ensures Valid() && inbox == Next(old(inbox)) && !hasMessage
      ensures flags.hasReply == (old(flags.hasReply) || flags.complete)
    {
      hide R.HmFragment.Valid, R.HmFragment.Body, RingOk, Current, Apart;
      NextKeepsRing(inbox);
      incoming[readSeq % flight] := null;
      inbox := Next(inbox);
      readSeq := readSeq + 1;
      hasMessage := false;
      if flags.complete { flags.hasReply := true; }
    }

    /** dtls_has_unprocessed_handshake_data: a ChangeCipherSpec, or a message
        other than the one being processed. */
    method HasUnprocessedData() returns (yes: bool)
      requires Valid()
      ensures yes <==> hasChangeCipherSpec
                       || exists i :: 0 <= i < flight && inbox.slots[i].Some?
                           && !(hasMessage && i == inbox.readSeq % flight)
    {
      if hasChangeCipherSpec { return true; }
      var current := readSeq % flight;
      for i := 0 to flight
        invariant forall j :: 0 <= j < i && inbox.slots[j].Some? ==> hasMessage && j == current
      {
        if hasMessage && i == current { continue; }
        if incoming[i] != null { return true; }
      }
      return false;
    }
  }
}
