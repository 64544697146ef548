/** Epochs and reassembly together: dtls1_set_read_state refuses to change the epoch
    while the ring holds more than the message being processed (dtls_method.cc:81-95,
    d1_both.cc:440-457), so no message is put together from the fragments of two
    epochs. Section 4.2.4 of RFC 6347. */
module DtlsEpochs {
  import opened Wrappers
  import opened DtlsInbox
  import opened DtlsReceiver
  import D = DtlsRecord
  import R = DtlsReassembly

  /** The slot of the message to be read next. */
  function CurrentSlot(b: Inbox): nat
    requires RingOk(b)
  {
    b.readSeq % |b.slots|
  }

  /** dtls_has_unprocessed_handshake_data. */
  predicate Leftover(b: Inbox, hasMessage: bool, hasCcs: bool)
    requires RingOk(b)
  {
    hasCcs || exists i :: 0 <= i < |b.slots| && b.slots[i].Some? && !(hasMessage && i == CurrentSlot(b))
  }

  /** The reading side: marks[i] are the epochs in which fragments were put into the
      message in slot i. */
  datatype State = State(inbox: Inbox, hasMessage: bool, hasCcs: bool, epoch: nat, marks: seq<set<nat>>)

  datatype Event =
    | Arrives(f: Fragment, maxLen: nat) // a fragment in a record of the current epoch
    | GetMessage
    | NextMessage
    | CcsArrives
    | CcsTaken
    | ChangeEpoch

  /** The fragment's bytes are copied into its message. */
  predicate Fills(b: Inbox, f: Fragment, epoch: nat, maxLen: nat)
    requires RingOk(b)
  {
    && !Illegal(b, f, epoch, maxLen) && b.readSeq <= f.seqNo <= b.readSeq + |b.slots|
    && GetIncoming(b, f).Some?
    && var s := GetIncoming(b, f).value.slots[f.seqNo % |b.slots|]; s.Some? && !R.All(s.value.got)
  }

  function Step(s: State, e: Event): State
    requires RingOk(s.inbox) && |s.marks| == |s.inbox.slots|
  {
    match e
    case Arrives(f, maxLen) =>
      var i := f.seqNo % |s.marks|;
      s.(inbox := OpenFragment(s.inbox, f, s.epoch, maxLen).inbox,
         marks := if Fills(s.inbox, f, s.epoch, maxLen) then s.marks[i := s.marks[i] + {s.epoch}] else s.marks)
    case GetMessage => s.(hasMessage := s.hasMessage || Current(s.inbox).Some?)
    case NextMessage =>
      if !s.hasMessage then s
      else s.(inbox := Next(s.inbox), hasMessage := false, marks := s.marks[CurrentSlot(s.inbox) := {}])
    case CcsArrives => s.(hasCcs := true)
    case CcsTaken => s.(hasCcs := false)
    case ChangeEpoch => if Leftover(s.inbox, s.hasMessage, s.hasCcs) then s else s.(epoch := s.epoch + 1)
  }

  /** Messages still being put together have bytes of the current epoch only, and
      every message has bytes of one epoch at most. */
  ghost predicate Kept(s: State) {
    && RingOk(s.inbox) && |s.marks| == |s.inbox.slots|
    && (s.hasMessage ==> Current(s.inbox).Some?)
    && forall i :: 0 <= i < |s.marks| ==> SlotKept(s.inbox.slots[i], s.marks[i], s.epoch)
  }

  ghost predicate SlotKept(slot: Option<Slot>, marks: set<nat>, epoch: nat) {
    && (slot.None? ==> marks == {})
    && (slot.Some? && !R.All(slot.value.got) ==> forall x :: x in marks ==> x == epoch)
    && (forall x, y :: x in marks && y in marks ==> x == y)
  }

  /** Nothing else touches a message that is there: if a fragment changes one, it is
      by filling it. */
  lemma OnlyFillsChange(b: Inbox, f: Fragment, epoch: nat, maxLen: nat, i: nat)
    requires RingOk(b) && i < |b.slots| && b.slots[i].Some?
    requires |OpenFragment(b, f, epoch, maxLen).inbox.slots| == |b.slots|
    requires OpenFragment(b, f, epoch, maxLen).inbox.slots[i] != b.slots[i]
    ensures Fills(b, f, epoch, maxLen) && i == f.seqNo % |b.slots|
  {
  }

  lemma ArrivesKeeps(s: State, f: Fragment, maxLen: nat)
    requires Kept(s)
    ensures Kept(Step(s, Arrives(f, maxLen)))
  {
    hide R.All, R.Add, Illegal;
    var b, n := s.inbox, |s.marks|;
    OpenKeepsRing(b, f, s.epoch, maxLen);
    if b.readSeq <= f.seqNo < b.readSeq + n && b.slots[f.seqNo % n].Some? { SlotIsTheMessages(b, f.seqNo); }
    if s.hasMessage && f.seqNo % n == CurrentSlot(b) && b.readSeq <= f.seqNo < b.readSeq + n {
      SameResidue(f.seqNo, b.readSeq, n);
    }
  }

  lemma ChangeKeeps(s: State)
    requires Kept(s)
    ensures Kept(Step(s, ChangeEpoch))
  {
    hide R.All, RingOk;
    if !Leftover(s.inbox, s.hasMessage, s.hasCcs) {
      var b := s.inbox;
      forall i | 0 <= i < |s.marks| ensures SlotKept(b.slots[i], s.marks[i], s.epoch + 1) {
        if b.slots[i].Some? { assert s.hasMessage && i == CurrentSlot(b); }
      }
    }
  }

  lemma StepKeeps(s: State, e: Event)
    requires Kept(s)
    ensures Kept(Step(s, e))
  {
    hide R.All;
    match e
    case Arrives(f, maxLen) => ArrivesKeeps(s, f, maxLen);
    case NextMessage => NextKeepsRing(s.inbox);
    case ChangeEpoch => ChangeKeeps(s);
    case _ =>
  }

  ghost function Run(flight: nat, es: seq<Event>): (s: State)
    requires flight >= 1
    ensures Kept(s)
  {
    if es == [] then State(Empty(flight), false, false, 0, seq(flight, _ => {}))
    else
      var s := Run(flight, es[..|es|-1]);
      StepKeeps(s, es[|es|-1]);
      Step(s, es[|es|-1])
  }

  /** Over every run: no message has bytes from fragments of two epochs, and one that
      is not whole yet has none but from the current epoch. */
  lemma NoMessageMixesEpochs(flight: nat, es: seq<Event>, i: nat)
    requires 1 <= flight && i < |Run(flight, es).marks|
    ensures var s := Run(flight, es);
            && (forall x, y :: x in s.marks[i] && y in s.marks[i] ==> x == y)
            && (i < |s.inbox.slots| && s.inbox.slots[i].Some? && !R.All(s.inbox.slots[i].value.got)
                ==> forall x :: x in s.marks[i] ==> x == s.epoch)
  {
    assert SlotKept(Run(flight, es).inbox.slots[i], Run(flight, es).marks[i], Run(flight, es).epoch);
  }

  /** A connection's reading side, updated in place. */
  class Connection {
    const receiver: Receiver
    const record: D.RecordLayer

    ghost predicate Valid()
      reads this, receiver, receiver.repr
    {
      receiver.Valid() && record !in receiver.repr
    }

    constructor (receiver: Receiver, record: D.RecordLayer)
      requires receiver.Valid() && record !in receiver.repr
      ensures Valid() && this.receiver == receiver && this.record == record
    {
      this.receiver, this.record := receiver, record;
    }

    /** dtls1_set_read_state. If it succeeds, the ring holds nothing but the message
        being processed, and the new epoch has an empty window. */
    method SetReadState() returns (ok: bool)
      requires Valid()
      modifies record
      ensures Valid() && receiver.inbox == old(receiver.inbox)
      ensures ok <==> !Leftover(receiver.inbox, receiver.hasMessage, receiver.hasChangeCipherSpec)
      ensures ok ==> forall i :: 0 <= i < |receiver.inbox.slots| && receiver.inbox.slots[i].Some? ==>
                       receiver.hasMessage && i == CurrentSlot(receiver.inbox)
      ensures record.ReadSide() == if ok then D.ReadStep(old(record.ReadSide()), D.NewReadEpoch)
              else old(record.ReadSide())
    {
      var leftover := receiver.HasUnprocessedData();
      ok := record.SetReadState(leftover);
    }
  }
}
