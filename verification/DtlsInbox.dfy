/** Receiving handshake fragments: what dtls1_open_handshake does to the ring of
    incoming messages (d1_both.cc:253-438, 459-473), as functions on values.
    Sections 4.2.2, 4.2.3 and 4.2.6 of RFC 6347. */
module DtlsInbox {
  import opened Wrappers
  import R = DtlsReassembly

  type byte = R.byte

  /** One handshake fragment; its length is its body's. */
  datatype Fragment = Fragment(typ: byte, msgLen: nat, seqNo: nat, fragOff: nat, body: seq<byte>)

  /** The fields fit the header's 24- and 16-bit places. */
  predicate Encodable(f: Fragment) {
    f.msgLen < 0x100_0000 && f.seqNo < 0x1_0000 && f.fragOff < 0x100_0000 && |f.body| < 0x100_0000
  }

  function Write(f: Fragment): seq<byte> {
    R.Header(f.typ, f.msgLen, f.seqNo, f.fragOff, |f.body|) + f.body
  }

  /** dtls1_parse_fragment: a fragment and the bytes after it. */
  function ParseFragment(s: seq<byte>): (r: Option<(Fragment, seq<byte>)>)
    ensures r.Some? ==> |r.value.1| < |s|
  {
    if |s| < R.HEADER then None
    else
      var fragLen := R.FromU24(s[9..12]);
      if |s| - R.HEADER < fragLen then None
      else
        var f := Fragment(s[0], R.FromU24(s[1..4]), R.FromU16(s[4..6]), R.FromU24(s[6..9]),
                          s[R.HEADER..R.HEADER + fragLen]);
        Some((f, s[R.HEADER + fragLen..]))
  }

  lemma U16RoundTrip(n: nat)
    requires n < 0x1_0000
    ensures R.FromU16(R.U16(n)) == n
  {
    assert n / 256 < 256;
    assert n == 256 * (n / 256) + n % 256;
  }

  lemma U24RoundTrip(n: nat)
    requires n < 0x100_0000
    ensures R.FromU24(R.U24(n)) == n
  {
    var m := n / 256;
    assert n / 65536 == m / 256 && m / 256 < 256;
    assert n == 256 * m + n % 256 && m == 256 * (m / 256) + m % 256;
  }

  lemma NumbersRoundTrip(n: nat)
    ensures n < 0x1_0000 ==> R.FromU16(R.U16(n)) == n
    ensures n < 0x100_0000 ==> R.FromU24(R.U24(n)) == n
  {
    hide R.U16, R.U24, R.FromU16, R.FromU24;
    if n < 0x1_0000 { U16RoundTrip(n); }
    if n < 0x100_0000 { U24RoundTrip(n); }
  }

  /** What was written is parsed, whatever follows it. */
  lemma ParseWritten(f: Fragment, tail: seq<byte>)
    requires Encodable(f)
    ensures ParseFragment(Write(f) + tail) == Some((f, tail))
  {
    hide R.U16, R.U24, R.FromU16, R.FromU24;
    var s := Write(f) + tail;
    var n := |f.body|;
    NumbersRoundTrip(f.msgLen);
    NumbersRoundTrip(f.seqNo);
    NumbersRoundTrip(f.fragOff);
    NumbersRoundTrip(n);
    HeaderFields(f.typ, f.msgLen, f.seqNo, f.fragOff, n, f.body + tail);
    assert s == R.Header(f.typ, f.msgLen, f.seqNo, f.fragOff, n) + (f.body + tail);
    assert s[R.HEADER..R.HEADER + n] == f.body && s[R.HEADER + n..] == tail;
  }

  lemma HeaderFields(typ: byte, msgLen: nat, seqNo: nat, fragOff: nat, fragLen: nat, rest: seq<byte>)
    ensures var s := R.Header(typ, msgLen, seqNo, fragOff, fragLen) + rest;
            s[0] == typ && s[1..4] == R.U24(msgLen) && s[4..6] == R.U16(seqNo)
            && s[6..9] == R.U24(fragOff) && s[9..12] == R.U24(fragLen)
  {
  }

  /** The header byte by byte: twelve of them, the high one first in each number. */
  lemma HeaderInNumbers(f: Fragment)
    requires Encodable(f)
    ensures var s, n := Write(f), |f.body|;
            && |s| == 12 + n && s[0] == f.typ && s[12..] == f.body
            && 0x1_0000 * (s[1] as int) + 0x100 * (s[2] as int) + s[3] == f.msgLen
            && 0x100 * (s[4] as int) + s[5] == f.seqNo
            && 0x1_0000 * (s[6] as int) + 0x100 * (s[7] as int) + s[8] == f.fragOff
            && 0x1_0000 * (s[9] as int) + 0x100 * (s[10] as int) + s[11] == n
  {
    ParseWritten(f, []);
    assert Write(f) + [] == Write(f);
    ParseInNumbers(Write(f));
  }

  /** And parsed: any twelve bytes and what they announce are a fragment. */
  lemma ParseInNumbers(s: seq<byte>)
    ensures ParseFragment(s).None?
       <==> |s| < 12 || |s| - 12 < 0x1_0000 * (s[9] as int) + 0x100 * (s[10] as int) + s[11]
    ensures ParseFragment(s).Some? ==>
              var (f, rest) := ParseFragment(s).value;
              && f.typ == s[0] && s[12..] == f.body + rest
              && f.msgLen == 0x1_0000 * (s[1] as int) + 0x100 * (s[2] as int) + s[3]
              && f.seqNo == 0x100 * (s[4] as int) + s[5]
              && f.fragOff == 0x1_0000 * (s[6] as int) + 0x100 * (s[7] as int) + s[8]
              && |f.body| == 0x1_0000 * (s[9] as int) + 0x100 * (s[10] as int) + s[11]
  {
    if |s| >= 12 {
      var n := R.FromU24(s[9..12]);
      if |s| - 12 >= n { assert s[12..] == s[12..12 + n] + s[12 + n..]; }
    }
  }

  // ----- the ring of incoming messages -----

  /** A message under reassembly. */
  datatype Slot = Slot(typ: byte, seqNo: nat, body: seq<byte>, got: seq<bool>)

  datatype Inbox = Inbox(readSeq: nat, slots: seq<Option<Slot>>)

  /** Every occupied slot holds a message of the next |slots| to be read, at its
      number's place. */
  predicate RingOk(b: Inbox) {
    |b.slots| >= 1
    && forall i :: 0 <= i < |b.slots| && b.slots[i].Some? ==>
         var s := b.slots[i].value;
         s.seqNo % |b.slots| == i && b.readSeq <= s.seqNo < b.readSeq + |b.slots| && |s.got| == |s.body|
  }

  /** The outcome of one fragment or of one record. */
  datatype Outcome = Going(inbox: Inbox) | Alert(inbox: Inbox)

  /** dtls1_get_incoming_message: the slot for a fragment, created if need be. */
  function GetIncoming(b: Inbox, f: Fragment): Option<Inbox>
    requires RingOk(b)
  {
    if f.seqNo < b.readSeq || f.seqNo - b.readSeq >= |b.slots| then None
    else
      var i := f.seqNo % |b.slots|;
      match b.slots[i]
      case Some(s) => if s.typ != f.typ || |s.body| != f.msgLen then None else Some(b)
      case None =>
        var slot := Slot(f.typ, f.seqNo, seq(f.msgLen, _ => 0), R.None(f.msgLen));
        Some(b.(slots := b.slots[i := Some(slot)]))
  }

  /** A slot with a fragment's bytes copied in and marked. */
  function Fill(s: Slot, f: Fragment): Slot
    requires f.fragOff + |f.body| <= |s.body| == |s.got|
  {
    s.(body := s.body[..f.fragOff] + f.body + s.body[f.fragOff + |f.body|..],
       got := R.Add(s.got, f.fragOff, f.fragOff + |f.body|))
  }

  /** What the checks before the ring say: an illegal fragment ends the
      connection, and one of another message does in the encrypted epoch. */
  predicate Illegal(b: Inbox, f: Fragment, rEpoch: nat, maxLen: nat) {
    f.fragOff + |f.body| > f.msgLen || f.msgLen > maxLen || (rEpoch == 1 && f.seqNo != b.readSeq)
  }

  /** The loop body of dtls1_open_handshake. */
  function OpenFragment(b: Inbox, f: Fragment, rEpoch: nat, maxLen: nat): Outcome
    requires RingOk(b)
  {
    if Illegal(b, f, rEpoch, maxLen) then Alert(b)
    else if f.seqNo < b.readSeq || f.seqNo > b.readSeq + |b.slots| then Going(b)
    else match GetIncoming(b, f)
      case None => Alert(b)
      case Some(b') =>
        var i := f.seqNo % |b.slots|;
        var s := b'.slots[i].value;
        if R.All(s.got) then Going(b') else Going(b'.(slots := b'.slots[i := Some(Fill(s, f))]))
  }

  lemma SameResidue(a: int, b: int, n: int)
    requires n >= 1 && a % n == b % n && a - n < b < a + n
    ensures a == b
  {
    var q := a / n - b / n;
    assert a - b == n * q;
    assert q >= 1 ==> n * q >= n;
    assert q <= -1 ==> n * q <= -n;
  }

  /** The slot that a fragment in the window leads to is its own message's: the
      assertion at d1_both.cc:276 always holds. */
  lemma SlotIsTheMessages(b: Inbox, seqNo: nat)
    requires RingOk(b) && b.readSeq <= seqNo < b.readSeq + |b.slots|
    requires b.slots[seqNo % |b.slots|].Some?
    ensures b.slots[seqNo % |b.slots|].value.seqNo == seqNo
  {
    SameResidue(b.slots[seqNo % |b.slots|].value.seqNo, seqNo, |b.slots|);
  }

  /** Every fragment keeps the ring in order and reads no message. */
  lemma OpenKeepsRing(b: Inbox, f: Fragment, rEpoch: nat, maxLen: nat)
    requires RingOk(b)
    ensures var r := OpenFragment(b, f, rEpoch, maxLen).inbox;
            RingOk(r) && r.readSeq == b.readSeq && |r.slots| == |b.slots|
  {
    var n := |b.slots|;
    if b.readSeq <= f.seqNo < b.readSeq + n && b.slots[f.seqNo % n].Some? { SlotIsTheMessages(b, f.seqNo); }
  }

  /** What becomes of any fragment, honest or not. It ends the connection exactly if
      it does not fit its message, is too long or not the current message's in the
      encrypted epoch, or is in reach and either exactly a window ahead or at odds
      with what is known of its message. Otherwise one in the window adds its bytes to
      its message, if that is not whole yet, and nothing else changes. */
  lemma OpenOutcome(b: Inbox, f: Fragment, rEpoch: nat, maxLen: nat, k: nat)
    requires RingOk(b)
    ensures var n := |b.slots|;
            var was := b.slots[f.seqNo % n];
            var r := OpenFragment(b, f, rEpoch, maxLen);
            && (r.Alert? <==>
                  || f.fragOff + |f.body| > f.msgLen || f.msgLen > maxLen || (rEpoch == 1 && f.seqNo != b.readSeq)
                  || (b.readSeq <= f.seqNo <= b.readSeq + n
                      && (f.seqNo == b.readSeq + n
                          || (was.Some? && (was.value.typ != f.typ || |was.value.body| != f.msgLen)))))
            && (r.Alert? || f.seqNo < b.readSeq || f.seqNo > b.readSeq + n ==> r.inbox == b)
            && (r.Going? && b.readSeq <= f.seqNo <= b.readSeq + n ==>
                  && r.inbox == b.(slots := r.inbox.slots) && |r.inbox.slots| == n
                  && (forall j :: 0 <= j < n && j != f.seqNo % n ==> r.inbox.slots[j] == b.slots[j])
                  && var now := r.inbox.slots[f.seqNo % n];
                     now.Some? && now.value.typ == f.typ && now.value.seqNo == f.seqNo
                     && |now.value.body| == |now.value.got| == f.msgLen
                     && (k < f.msgLen ==>
                           var had, whole := was.Some? && was.value.got[k], was.Some? && R.All(was.value.got);
                           var added := f.fragOff <= k < f.fragOff + |f.body|;
                           && (now.value.got[k] <==> had || added)
                           && now.value.body[k] == if !whole && added then f.body[k - f.fragOff]
                                                   else if was.Some? then was.value.body[k] else 0))
  {
    var n := |b.slots|;
    if b.readSeq <= f.seqNo < b.readSeq + n && b.slots[f.seqNo % n].Some? { SlotIsTheMessages(b, f.seqNo); }
  }

  /** All the fragments of one record, until one ends the connection. */
  function OpenAll(b: Inbox, fs: seq<Fragment>, rEpoch: nat, maxLen: nat): (r: Outcome)
    requires RingOk(b)
    ensures RingOk(r.inbox) && r.inbox.readSeq == b.readSeq && |r.inbox.slots| == |b.slots|
    decreases |fs|
  {
    if fs == [] then Going(b)
    else
      OpenKeepsRing(b, fs[0], rEpoch, maxLen);
      match OpenFragment(b, fs[0], rEpoch, maxLen)
      case Alert(b') => Alert(b')
      case Going(b') => OpenAll(b', fs[1..], rEpoch, maxLen)
  }

  /** The fragments at the front of a record's payload, and whether they use it
      up. */
  function Parse(s: seq<byte>): (seq<Fragment>, bool)
    decreases |s|
  {
    if s == [] then ([], true)
    else match ParseFragment(s)
      case None => ([], false)
      case Some((f, rest)) => var (fs, whole) := Parse(rest); ([f] + fs, whole)
  }

  /** dtls1_open_handshake on a handshake record's payload. */
  function OpenPayload(b: Inbox, s: seq<byte>, rEpoch: nat, maxLen: nat): Outcome
    requires RingOk(b)
  {
    var (fs, whole) := Parse(s);
    match OpenAll(b, fs, rEpoch, maxLen)
    case Alert(b') => Alert(b')
    case Going(b') => if whole then Going(b') else Alert(b')
  }

  /** A payload that is not empty and does not start with a whole fragment ends the
      connection, whatever was opened before it. */
  lemma BrokenPayload(b: Inbox, s: seq<byte>, rEpoch: nat, maxLen: nat)
    requires RingOk(b) && s != []
    requires |s| < 12 || |s| - 12 < 0x1_0000 * (s[9] as int) + 0x100 * (s[10] as int) + s[11]
    ensures OpenPayload(b, s, rEpoch, maxLen) == Alert(b)
  {
    ParseInNumbers(s);
  }

  /** A message as dtls1_get_message hands it out. */
  datatype Message = Message(typ: byte, body: seq<byte>, raw: seq<byte>)

  /** dtls1_get_message. */
  function Current(b: Inbox): Option<Message>
    requires RingOk(b)
  {
    match b.slots[b.readSeq % |b.slots|]
    case None => None
    case Some(s) =>
      if R.All(s.got) then
        Some(Message(s.typ, s.body, R.Header(s.typ, |s.body|, s.seqNo, 0, |s.body|) + s.body))
      else None
  }

  /** dtls1_next_message. */
  function Next(b: Inbox): Inbox
    requires RingOk(b)
  {
    Inbox(b.readSeq + 1, b.slots[b.readSeq % |b.slots| := None])
  }

  lemma NextKeepsRing(b: Inbox)
    requires RingOk(b)
    ensures RingOk(Next(b))
  {
    var n := |b.slots|;
    forall i | 0 <= i < n && Next(b).slots[i].Some? ensures b.slots[i].value.seqNo != b.readSeq {}
  }

  function Empty(flight: nat): Inbox {
    Inbox(0, seq(flight, _ => None))
  }
}
