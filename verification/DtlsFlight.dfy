/** How a flight is sealed into packets and sent, as functions of what the AEAD and
    the BIO do at each place of the flight (d1_both.cc:620-813): which items reach
    the wire, which are lost, and where the cursor ends. */
module DtlsFlight {
  import opened Wrappers
  import opened DtlsInbox
  import opened DtlsOutbox
  import R = DtlsReassembly

  /** What an epoch's cipher adds to a record: at most overhead bytes in all, of
      which prefix come first; both include the record header. */
  datatype Aead = Aead(overhead: nat, prefix: nat)

  /** Whether sealing at a cursor succeeds, how long the record is then, and
      whether the packet that starts at a cursor is written. */
  datatype Environment = Environment(current: Aead, previous: Aead, seals: Cursor -> bool, length: Cursor -> nat,
                                     writes: Cursor -> bool, flushes: bool)

  datatype SealResult = SealError | NoProgress | Partial(item: Item, length: nat) | Sealed(item: Item, length: nat)

  function Min(a: nat, b: nat): nat { if a <= b then a else b }

  /** The room left after a record. */
  function Rest(room: nat, length: nat): nat { if length <= room then room - length else 0 }

  predicate EpochKnown(m: OutMessage, wEpoch: nat) { m.epoch == wEpoch || m.epoch + 1 == wEpoch }

  function AeadFor(m: OutMessage, wEpoch: nat, env: Environment): Aead {
    if m.epoch + 1 == wEpoch then env.previous else env.current
  }

  /** How much of a body goes into a fragment. */
  function Todo(left: nat, room: nat, aead: Aead): nat
    requires room >= R.HEADER + aead.overhead
  {
    Min(left, room - R.HEADER - aead.overhead)
  }

  /** The slice of a message from an offset on. */
  function Slice(m: Fragment, offset: nat, n: nat): Fragment
    requires offset + n <= |m.body|
  {
    Fragment(m.typ, m.msgLen, m.seqNo, offset, m.body[offset..offset + n])
  }

  /** seal_next_message. */
  function Seal(flight: seq<OutMessage>, wEpoch: nat, env: Environment, c: Cursor, room: nat): SealResult
    requires c.written < |flight|
  {
    var msg := flight[c.written];
    var aead := AeadFor(msg, wEpoch, env);
    if !EpochKnown(msg, wEpoch) then SealError
    else match msg
      case Ccs(_) =>
        if room < 1 + aead.overhead then NoProgress
        else if !env.seals(c) then SealError
        else Sealed(CcsItem, Min(env.length(c), 1 + aead.overhead))
      case Handshake(data, _) =>
        match Single(data)
        case None => SealError
        case Some(m) =>
          if c.offset > |m.body| then SealError
          else if room < R.HEADER + 1 + aead.overhead || room < aead.prefix then NoProgress
          else
            var left := |m.body| - c.offset;
            var todo := Todo(left, room, aead);
            var length := Min(env.length(c), R.HEADER + todo + aead.overhead);
            if R.HEADER + todo > room - aead.prefix || !env.seals(c) then SealError
            else if todo == left then Sealed(FragItem(Slice(m, c.offset, todo)), length)
            else Partial(FragItem(Slice(m, c.offset, todo)), length)
  }

  /** The cursor stands at the flight's end or inside one of its messages. */
  ghost predicate InFlight(flight: seq<OutMessage>, c: Cursor) {
    && c.written <= |flight|
    && (c.written == |flight| ==> c.offset == 0)
    && (c.written < |flight| ==> c.offset <= BytesLeft(flight, Cursor(c.written, 0)))
  }

  /** How much of the message under the cursor is still to be sent. */
  function BytesLeft(flight: seq<OutMessage>, c: Cursor): nat {
    if c.written >= |flight| || flight[c.written].Ccs? then 0
    else match Single(flight[c.written].data)
      case None => 0
      case Some(m) => if c.offset <= |m.body| then |m.body| - c.offset else 0
  }

  /** What is sealed stands next in the flight, and fits. */
  lemma SealAdvances(flight: seq<OutMessage>, wEpoch: nat, env: Environment, c: Cursor, room: nat)
    requires InFlight(flight, c) && c.written < |flight|
    ensures var r := Seal(flight, wEpoch, env, c, room);
            && (r.Sealed? ==> Advance(flight, c, r.item) == Some(Cursor(c.written + 1, 0)) && r.length <= room)
            && (r.Partial? ==> r.length <= room && r.item.FragItem?
                               && Advance(flight, c, r.item) == Some(Cursor(c.written, c.offset + |r.item.f.body|))
                               && InFlight(flight, Cursor(c.written, c.offset + |r.item.f.body|)))
  {
    hide Single;
  }

  /** What sealing does, in numbers: a message header is twelve bytes. A message is
      only sealed under its own epoch or the one after it, in the cipher of its own;
      there has to be room for one byte of it; what fits is sealed whole, and what
      does not fills the room. */
  lemma SealExactly(flight: seq<OutMessage>, wEpoch: nat, env: Environment, c: Cursor, room: nat, m: Fragment)
    requires c.written < |flight| && flight[c.written].Handshake? && Single(flight[c.written].data) == Some(m)
    requires c.offset <= |m.body|
    ensures var msg := flight[c.written];
            var aead := if msg.epoch == wEpoch then env.current else env.previous;
            var left := |m.body| - c.offset;
            var r := Seal(flight, wEpoch, env, c, room);
            && (msg.epoch != wEpoch && msg.epoch + 1 != wEpoch ==> r == SealError)
            && (msg.epoch == wEpoch || msg.epoch + 1 == wEpoch ==>
                  && (r.NoProgress? <==> room < 13 + aead.overhead || room < aead.prefix)
                  && (!r.NoProgress? ==>
                        var whole := 12 + left + aead.overhead <= room;
                        var n := if whole then left else room - 12 - aead.overhead;
                        && (r.SealError? <==> !env.seals(c) || 12 + n + aead.prefix > room)
                        && (r.Sealed? ==> whole) && (r.Partial? ==> !whole)
                        && (r.Sealed? || r.Partial? ==>
                              && r.item == FragItem(Fragment(m.typ, m.msgLen, m.seqNo, c.offset,
                                                             m.body[c.offset..c.offset + n]))
                              && r.length == if env.length(c) <= 12 + n + aead.overhead then env.length(c)
                                             else 12 + n + aead.overhead)))
  {
    hide Single;
    assert m.body[c.offset..|m.body|] == m.body[c.offset..];
  }

  /** What becomes of one packet: its items, the cursor after them, and whether
      sealing failed. */
  datatype Packing = Packing(items: seq<Item>, cursor: Cursor, failed: bool)

  /** seal_next_packet, from a cursor on. */
  function Pack(flight: seq<OutMessage>, wEpoch: nat, env: Environment, c: Cursor, room: nat): Packing
    decreases |flight| - c.written
  {
    if c.written >= |flight| then Packing([], c, false)
    else match Seal(flight, wEpoch, env, c, room)
      case SealError => Packing([], c, true)
      case NoProgress => Packing([], c, false)
      case Partial(item, _) =>
        Packing([item], Cursor(c.written, c.offset + if item.FragItem? then |item.f.body| else 0), false)
      case Sealed(item, length) =>
        var p := Pack(flight, wEpoch, env, Cursor(c.written + 1, 0), Rest(room, length));
        p.(items := [item] + p.items)
  }

  /** One item of a packet, after those before it. */
  lemma PackUnfolds(flight: seq<OutMessage>, wEpoch: nat, env: Environment, c: Cursor, room: nat, before: seq<Item>)
    requires c.written < |flight|
    ensures var p := Pack(flight, wEpoch, env, c, room);
            p.(items := before + p.items)
            == match Seal(flight, wEpoch, env, c, room)
               case SealError => Packing(before, c, true)
               case NoProgress => Packing(before, c, false)
               case Partial(item, _) =>
                 Packing(before + [item], Cursor(c.written, c.offset + if item.FragItem? then |item.f.body| else 0),
                         false)
               case Sealed(item, length) =>
                 var q := Pack(flight, wEpoch, env, Cursor(c.written + 1, 0), Rest(room, length));
                 q.(items := (before + [item]) + q.items)
  {
    hide Seal;
    assert before + [] == before;
    match Seal(flight, wEpoch, env, c, room)
    case Sealed(item, length) =>
      var rest := Pack(flight, wEpoch, env, Cursor(c.written + 1, 0), Rest(room, length)).items;
      assert before + ([item] + rest) == (before + [item]) + rest;
    case _ =>
  }

  lemma PackEnds(flight: seq<OutMessage>, wEpoch: nat, env: Environment, c: Cursor, room: nat)
    requires c.written >= |flight|
    ensures Pack(flight, wEpoch, env, c, room) == Packing([], c, false)
  {
  }

  lemma {:induction false} PackAdvances(flight: seq<OutMessage>, wEpoch: nat, env: Environment, c: Cursor, room: nat)
    requires InFlight(flight, c)
    ensures var p := Pack(flight, wEpoch, env, c, room);
            AdvanceAll(flight, c, p.items) == Some(p.cursor) && InFlight(flight, p.cursor)
    decreases |flight| - c.written
  {
    hide Advance, Seal, BytesLeft;
    if c.written < |flight| {
      SealAdvances(flight, wEpoch, env, c, room);
      match Seal(flight, wEpoch, env, c, room)
      case Sealed(item, length) =>
        var next := Cursor(c.written + 1, 0);
        var p := Pack(flight, wEpoch, env, next, Rest(room, length));
        PackAdvances(flight, wEpoch, env, next, Rest(room, length));
        assert ([item] + p.items)[1..] == p.items;
      case Partial(item, _) => AdvanceOne(flight, c, item);
      case _ =>
    }
  }

  datatype FlightResult = FlightSent | WriteBlocked | SealFailed | ShutDown

  /** What becomes of a transmission: the items that were written, those that were
      sealed into a packet that was not, and the cursor. */
  datatype Sending = Sending(result: FlightResult, delivered: seq<Item>, lost: seq<Item>, cursor: Cursor)

  /** A packet that makes progress brings the flight nearer its end. */
  lemma PackMoves(flight: seq<OutMessage>, wEpoch: nat, env: Environment, c: Cursor, room: nat)
    requires InFlight(flight, c)
    ensures var p := Pack(flight, wEpoch, env, c, room);
            InFlight(flight, p.cursor)
            && (p.items != [] ==> p.cursor.written > c.written
                                  || (p.cursor.written == c.written
                                      && BytesLeft(flight, p.cursor) < BytesLeft(flight, c)))
  {
    hide Pack, Advance;
    PackAdvances(flight, wEpoch, env, c, room);
    var p := Pack(flight, wEpoch, env, c, room);
    AdvanceAllMoves(flight, c, p.items);
  }

  /** The items of a flight from a message on, if nothing is cut. */
  function WholeItems(flight: seq<OutMessage>, i: nat): Option<seq<Item>>
    requires i <= |flight|
    decreases |flight| - i
  {
    if i == |flight| then Some([])
    else match WholeItems(flight, i + 1)
      case None => None
      case Some(rest) =>
        match flight[i]
        case Ccs(_) => Some([CcsItem] + rest)
        case Handshake(data, _) => (match Single(data) case None => None case Some(m) => Some([FragItem(m)] + rest))
  }

  /** The room that they need, for a cipher that adds so many bytes to each: an empty
      message needs the room of one with a byte. */
  function WholeLength(items: seq<Item>, overhead: nat): nat {
    if items == [] then 0 else Needs(items[0]) + overhead + WholeLength(items[1..], overhead)
  }

  function Needs(item: Item): nat {
    if item.CcsItem? then 1 else if item.f.body == [] then 13 else 12 + |item.f.body|
  }

  function Takes(item: Item): nat { if item.CcsItem? then 1 else 12 + |item.f.body| }

  /** Messages of the epoch that fit into a packet together go into one, whole. */
  lemma {:induction false} PackWhole(flight: seq<OutMessage>, wEpoch: nat, env: Environment, i: nat, room: nat)
    requires i <= |flight| && WholeItems(flight, i).Some? && env.current.prefix <= env.current.overhead
    requires WholeLength(WholeItems(flight, i).value, env.current.overhead) <= room
    requires forall k :: i <= k < |flight| ==> flight[k].epoch == wEpoch && env.seals(Cursor(k, 0))
    ensures Pack(flight, wEpoch, env, Cursor(i, 0), room)
         == Packing(WholeItems(flight, i).value, Cursor(|flight|, 0), false)
    decreases |flight| - i
  {
    hide Single, Seal;
    if i < |flight| {
      var items := WholeItems(flight, i).value;
      assert items[1..] == WholeItems(flight, i + 1).value;
      SealsWhole(flight, wEpoch, env, i, room, items[0]);
      var length := Min(env.length(Cursor(i, 0)), Takes(items[0]) + env.current.overhead);
      PackWhole(flight, wEpoch, env, i + 1, Rest(room, length));
    }
  }

  lemma WholeOffset(data: seq<byte>)
    ensures Single(data).Some? ==> Single(data).value.fragOff == 0
  {
  }

  lemma SealsWhole(flight: seq<OutMessage>, wEpoch: nat, env: Environment, i: nat, room: nat, item: Item)
    requires i < |flight| && flight[i].epoch == wEpoch && env.seals(Cursor(i, 0))
    requires env.current.prefix <= env.current.overhead
    requires match flight[i]
             case Ccs(_) => item == CcsItem
             case Handshake(data, _) => Single(data).Some? && item == FragItem(Single(data).value)
    requires Needs(item) + env.current.overhead <= room
    ensures Seal(flight, wEpoch, env, Cursor(i, 0), room)
         == Sealed(item, Min(env.length(Cursor(i, 0)), Takes(item) + env.current.overhead))
  {
    if flight[i].Handshake? {
      var m := Single(flight[i].data).value;
      WholeOffset(flight[i].data);
      SealExactly(flight, wEpoch, env, Cursor(i, 0), room, m);
      assert m.body[0..] == m.body;
    }
    hide Single;
  }

  /** So a flight that fits into one packet is sent in one, each message whole. */
  lemma FitsIsSentWhole(flight: seq<OutMessage>, wEpoch: nat, env: Environment, mtu: nat)
    requires flight != [] && WholeItems(flight, 0).Some? && env.current.prefix <= env.current.overhead
    requires WholeLength(WholeItems(flight, 0).value, env.current.overhead) <= mtu
    requires forall k :: 0 <= k < |flight| ==> flight[k].epoch == wEpoch && env.seals(Cursor(k, 0))
    requires env.writes(Cursor(0, 0)) && env.flushes
    ensures Send(flight, wEpoch, env, mtu, Cursor(0, 0))
         == Sending(FlightSent, WholeItems(flight, 0).value, [], Cursor(|flight|, 0))
  {
    hide Single, Pack, WholeLength;
    PackWhole(flight, wEpoch, env, 0, mtu);
    SendEnds(flight, wEpoch, env, mtu, Cursor(|flight|, 0));
    var items := WholeItems(flight, 0).value;
    assert items + [] == items;
  }

  /** The loop of send_flight. */
  ghost function Send(flight: seq<OutMessage>, wEpoch: nat, env: Environment, mtu: nat, c: Cursor): Sending
    requires InFlight(flight, c)
    decreases |flight| - c.written, BytesLeft(flight, c)
  {
    if c.written >= |flight| then Sending(if env.flushes then FlightSent else WriteBlocked, [], [], c)
    else
      var p := Pack(flight, wEpoch, env, c, mtu);
      if p.failed || p.items == [] then Sending(SealFailed, [], p.items, p.cursor)
      else if !env.writes(c) then Sending(WriteBlocked, [], [], c)
      else
        PackMoves(flight, wEpoch, env, c, mtu);
        var s := Send(flight, wEpoch, env, mtu, p.cursor);
        s.(delivered := p.items + s.delivered)
  }

  /** One round of the loop, after what was delivered before it. */
  lemma SendUnfolds(flight: seq<OutMessage>, wEpoch: nat, env: Environment, mtu: nat, c: Cursor, before: seq<Item>)
    requires InFlight(flight, c) && c.written < |flight|
    ensures var s := Send(flight, wEpoch, env, mtu, c);
            var p := Pack(flight, wEpoch, env, c, mtu);
            InFlight(flight, p.cursor)
            && s.(delivered := before + s.delivered)
               == if p.failed || p.items == [] then Sending(SealFailed, before, p.items, p.cursor)
                  else if !env.writes(c) then Sending(WriteBlocked, before, [], c)
                  else
                    var s' := Send(flight, wEpoch, env, mtu, p.cursor);
                    s'.(delivered := (before + p.items) + s'.delivered)
  {
    hide Pack;
    PackMoves(flight, wEpoch, env, c, mtu);
    var p := Pack(flight, wEpoch, env, c, mtu);
    assert before + [] == before;
    if !p.failed && p.items != [] && env.writes(c) {
      var rest := Send(flight, wEpoch, env, mtu, p.cursor).delivered;
      assert before + (p.items + rest) == (before + p.items) + rest;
    }
  }

  lemma SendEnds(flight: seq<OutMessage>, wEpoch: nat, env: Environment, mtu: nat, c: Cursor)
    requires InFlight(flight, c) && c.written == |flight|
    ensures Send(flight, wEpoch, env, mtu, c) == Sending(if env.flushes then FlightSent else WriteBlocked, [], [], c)
  {
  }

  /** The cursor stands behind what was written and what was lost. */
  lemma {:induction false} SendAdvances(flight: seq<OutMessage>, wEpoch: nat, env: Environment, mtu: nat, c: Cursor)
    requires InFlight(flight, c)
    ensures var s := Send(flight, wEpoch, env, mtu, c);
            && InFlight(flight, s.cursor) && AdvanceAll(flight, c, s.delivered + s.lost) == Some(s.cursor)
            && (s.result.FlightSent? ==> s.cursor == Cursor(|flight|, 0))
            && (!s.result.SealFailed? ==> s.lost == [])
    decreases |flight| - c.written, BytesLeft(flight, c)
  {
    hide Pack, InFlight, BytesLeft;
    var s := Send(flight, wEpoch, env, mtu, c);
    if c.written >= |flight| {
      AtEnd(flight, c);
    } else {
      var p := Pack(flight, wEpoch, env, c, mtu);
      PackAdvances(flight, wEpoch, env, c, mtu);
      if !p.failed && p.items != [] && env.writes(c) {
        PackMoves(flight, wEpoch, env, c, mtu);
        SendAdvances(flight, wEpoch, env, mtu, p.cursor);
        var t := Send(flight, wEpoch, env, mtu, p.cursor);
        AdvanceAppend(flight, c, p.items, t.delivered + t.lost);
        assert p.items + (t.delivered + t.lost) == s.delivered + s.lost;
      } else {
        assert s.delivered + s.lost == s.lost;
      }
    }
  }

  lemma AtEnd(flight: seq<OutMessage>, c: Cursor)
    requires InFlight(flight, c) && c.written >= |flight|
    ensures c == Cursor(|flight|, 0)
  {
  }

  // ----- when items are lost -----

  /** Sealing the packet fails, at the message under the cursor or at a later one
      that it gets to. */
  predicate Fails(flight: seq<OutMessage>, wEpoch: nat, env: Environment, c: Cursor, room: nat)
    decreases |flight| - c.written
  {
    c.written < |flight|
    && match Seal(flight, wEpoch, env, c, room)
       case SealError => true
       case Sealed(_, length) =>
         Fails(flight, wEpoch, env, Cursor(c.written + 1, 0), Rest(room, length))
       case _ => false
  }

  /** It fails at a message that is not the packet's first. */
  predicate FailsInside(flight: seq<OutMessage>, wEpoch: nat, env: Environment, c: Cursor, room: nat) {
    c.written < |flight| && !Seal(flight, wEpoch, env, c, room).SealError? && Fails(flight, wEpoch, env, c, room)
  }

  /** One of the packets that the transmission gets to fails so. */
  ghost predicate Loses(flight: seq<OutMessage>, wEpoch: nat, env: Environment, mtu: nat, c: Cursor)
    requires InFlight(flight, c)
    decreases |flight| - c.written, BytesLeft(flight, c)
  {
    c.written < |flight|
    && (FailsInside(flight, wEpoch, env, c, mtu)
        || (var p := Pack(flight, wEpoch, env, c, mtu);
            && !p.failed && p.items != [] && env.writes(c)
            && (PackMoves(flight, wEpoch, env, c, mtu); Loses(flight, wEpoch, env, mtu, p.cursor))))
  }

  lemma {:induction false} PackFails(flight: seq<OutMessage>, wEpoch: nat, env: Environment, c: Cursor, room: nat)
    ensures Pack(flight, wEpoch, env, c, room).failed <==> Fails(flight, wEpoch, env, c, room)
    decreases |flight| - c.written
  {
    hide Seal;
    if c.written < |flight| {
      match Seal(flight, wEpoch, env, c, room)
      case Sealed(_, length) =>
        PackFails(flight, wEpoch, env, Cursor(c.written + 1, 0), Rest(room, length));
      case _ =>
    }
  }

  /** A transmission leaves its cursor past items that were never written exactly if
      sealing fails at a message that is not the first of its packet. */
  lemma {:induction false} LostExactly(flight: seq<OutMessage>, wEpoch: nat, env: Environment, mtu: nat, c: Cursor)
    requires InFlight(flight, c)
    ensures Send(flight, wEpoch, env, mtu, c).lost != [] <==> Loses(flight, wEpoch, env, mtu, c)
    decreases |flight| - c.written, BytesLeft(flight, c)
  {
    hide Seal, BytesLeft, InFlight;
    if c.written < |flight| {
      var p := Pack(flight, wEpoch, env, c, mtu);
      PackFails(flight, wEpoch, env, c, mtu);
      if !p.failed && p.items != [] && env.writes(c) {
        PackMoves(flight, wEpoch, env, c, mtu);
        LostExactly(flight, wEpoch, env, mtu, p.cursor);
      }
    }
  }

  /** So what was written leads to the cursor exactly if no packet fails like that. */
  lemma GapExactly(flight: seq<OutMessage>, wEpoch: nat, env: Environment, mtu: nat, c: Cursor)
    requires InFlight(flight, c)
    ensures var s := Send(flight, wEpoch, env, mtu, c);
            AdvanceAll(flight, c, s.delivered) == Some(s.cursor) <==> !Loses(flight, wEpoch, env, mtu, c)
  {
    hide Send, Loses, InFlight;
    var s := Send(flight, wEpoch, env, mtu, c);
    SendAdvances(flight, wEpoch, env, mtu, c);
    LostExactly(flight, wEpoch, env, mtu, c);
    AdvancePrefix(flight, c, s.delivered, s.lost);
    LostItemsLeaveGap(flight, c, s.delivered, s.lost);
  }

  /** The MTU permits progress in both epochs, and every message is whole and
      belongs to one. */
  ghost predicate Workable(flight: seq<OutMessage>, wEpoch: nat, mtu: nat, env: Environment) {
    && (forall i :: 0 <= i < |flight| ==> EpochKnown(flight[i], wEpoch))
    && (forall i :: 0 <= i < |flight| && flight[i].Handshake? ==> Single(flight[i].data).Some?)
    && env.current.prefix <= env.current.overhead && env.previous.prefix <= env.previous.overhead
    && mtu >= R.HEADER + 1 + env.current.overhead && mtu >= R.HEADER + 1 + env.previous.overhead
  }

  lemma NoSealError(flight: seq<OutMessage>, wEpoch: nat, env: Environment, c: Cursor, room: nat)
    requires InFlight(flight, c) && c.written < |flight| && env.seals(c)
    requires EpochKnown(flight[c.written], wEpoch)
             && (flight[c.written].Handshake? ==> Single(flight[c.written].data).Some?)
    requires env.current.prefix <= env.current.overhead && env.previous.prefix <= env.previous.overhead
    ensures !Seal(flight, wEpoch, env, c, room).SealError?
  {
    hide Single;
  }

  lemma {:induction false} NeverFails(flight: seq<OutMessage>, wEpoch: nat, env: Environment, c: Cursor, room: nat,
                                      mtu: nat)
    requires InFlight(flight, c) && Workable(flight, wEpoch, mtu, env) && forall d :: env.seals(d)
    ensures !Fails(flight, wEpoch, env, c, room)
    decreases |flight| - c.written
  {
    hide Seal, BytesLeft;
    if c.written < |flight| {
      NoSealError(flight, wEpoch, env, c, room);
      match Seal(flight, wEpoch, env, c, room)
      case Sealed(_, length) =>
        SealAdvances(flight, wEpoch, env, c, room);
        NeverFails(flight, wEpoch, env, Cursor(c.written + 1, 0), Rest(room, length), mtu);
      case _ =>
    }
  }

  lemma SomeProgress(flight: seq<OutMessage>, wEpoch: nat, env: Environment, c: Cursor, mtu: nat)
    requires InFlight(flight, c) && c.written < |flight| && Workable(flight, wEpoch, mtu, env) && env.seals(c)
    ensures Pack(flight, wEpoch, env, c, mtu).items != []
  {
    hide Single;
  }

  /** If the MTU permits progress and no sealing fails, the flight is sent as soon as
      every packet is written. */
  lemma {:induction false} WorkableIsSent(flight: seq<OutMessage>, wEpoch: nat, env: Environment, mtu: nat, c: Cursor)
    requires InFlight(flight, c) && Workable(flight, wEpoch, mtu, env) && forall d :: env.seals(d)
    ensures var s := Send(flight, wEpoch, env, mtu, c);
            !s.result.SealFailed? && ((forall d :: env.writes(d)) && env.flushes ==> s.result.FlightSent?)
    decreases |flight| - c.written, BytesLeft(flight, c)
  {
    hide Workable, Pack, BytesLeft, InFlight;
    if c.written < |flight| {
      var p := Pack(flight, wEpoch, env, c, mtu);
      PackFails(flight, wEpoch, env, c, mtu);
      NeverFails(flight, wEpoch, env, c, mtu, mtu);
      SomeProgress(flight, wEpoch, env, c, mtu);
      PackMoves(flight, wEpoch, env, c, mtu);
      if env.writes(c) { WorkableIsSent(flight, wEpoch, env, mtu, p.cursor); }
    }
  }

  /** A flight of two messages where sealing the second one fails: the cursor ends
      behind the first, which was never written, and no transmission that goes on
      from there carries any of it. */
  lemma LostMessage(env: Environment, x: byte)
    requires env.current == Aead(13, 13) && forall c :: env.seals(c) <==> c.written == 0
    ensures var first := Handshake(R.Raw(1, 0, [x]), 0);
            var flight := [first, Handshake(R.Raw(1, 1, []), 0)];
            && InFlight(flight, Cursor(0, 0))
            && Send(flight, 0, env, 1472, Cursor(0, 0))
               == Sending(SealFailed, [], [FragItem(Fragment(1, 1, 0, 0, [x]))], Cursor(1, 0))
            && forall more :: AdvanceAll(flight, Cursor(1, 0), more).Some? ==> Carried(more, 0) == []
  {
    hide R.Raw, Single;
    var flight := [Handshake(R.Raw(1, 0, [x]), 0), Handshake(R.Raw(1, 1, []), 0)];
    RawIsSingle(1, 0, [x]);
    RawIsSingle(1, 1, []);
    var r := Seal(flight, 0, env, Cursor(0, 0), 1472);
    assert r.Sealed? && r.item == FragItem(Fragment(1, 1, 0, 0, [x]));
    assert Seal(flight, 0, env, Cursor(1, 0), 1472 - r.length).SealError?;
    assert Pack(flight, 0, env, Cursor(1, 0), 1472 - r.length) == Packing([], Cursor(1, 0), true);
    assert [r.item] + [] == [r.item];
    forall more | AdvanceAll(flight, Cursor(1, 0), more).Some? ensures Carried(more, 0) == [] {
      FragmentsTile(flight, Cursor(1, 0), more, 0);
    }
  }
}
