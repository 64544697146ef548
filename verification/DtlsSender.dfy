/** The sending half of DTLS1_STATE, updated in place (d1_both.cc:495-831,
    dtls_method.cc:71-79, d1_lib.cc:247-268). Each method is proved to compute what
    DtlsFlight says of the outcomes of sealing and writing. */
module DtlsSender {
  import opened Wrappers
  import opened DtlsInbox
  import opened DtlsOutbox
  import opened DtlsFlight
  import opened DtlsReply
  import T = DtlsTimer
  import R = DtlsReassembly

  /** kMinMTU and kDefaultMTU. */
  const MIN_MTU: nat := 256 - 28
  const DEFAULT_MTU: nat := 1500 - 28

  /** What dtls1_update_mtu makes of an MTU, given the BIO's answer. */
  function UpdatedMtu(mtu: nat, query: bool, answer: int): nat {
    if mtu >= MIN_MTU || !query then mtu else if MIN_MTU <= answer <= 0x4000_0000 then answer else DEFAULT_MTU
  }

  class Sender {
    const maxFlight: nat
    /** The timer, which also holds the MTU and whether the BIO may be asked for
        it. */
    const timer: T.Timer
    const flags: FlightFlags
    var wEpoch: nat
    var handshakeWriteSeq: nat
    var outgoing: seq<OutMessage>
    var outgoingWritten: nat
    var outgoingOffset: nat
    /** The messages that have gone into the handshake transcript. */
    var transcript: seq<seq<byte>>

    function Position(): Cursor
      reads this
    {
      Cursor(outgoingWritten, outgoingOffset)
    }

    /** The flight with its flags. */
    function Flying(): State
      reads this, flags
    {
      State(outgoing, flags.complete, flags.hasReply)
    }

    ghost predicate Valid()
      reads this, timer
    {
      timer.Valid() && |outgoing| <= maxFlight && InFlight(outgoing, Position())
    }

    constructor (maxFlight: nat, timer: T.Timer, flags: FlightFlags)
      requires timer.Valid()
      ensures Valid() && outgoing == [] && Position() == Cursor(0, 0) && transcript == []
      ensures this.maxFlight == maxFlight && this.timer == timer && this.flags == flags && handshakeWriteSeq == 0
      ensures Numbered(outgoing, handshakeWriteSeq)
    {
      this.maxFlight, this.timer, this.flags := maxFlight, timer, flags;
      wEpoch, handshakeWriteSeq, outgoing, outgoingWritten, outgoingOffset := 0, 0, [], 0, 0;
      transcript := [];
    }

    // ----- building a flight -----

    /** dtls1_init_message and dtls1_finish_message around a body: the message as
        one whole fragment, numbered by the write counter. */
    method BuildMessage(typ: byte, body: seq<byte>) returns (data: Option<seq<byte>>)
      ensures data == if |body| < 0x100_0000 then Some(R.Raw(typ, handshakeWriteSeq, body)) else None
      ensures data.Some? && handshakeWriteSeq < 0x1_0000 ==>
                Single(data.value) == Some(Fragment(typ, |body|, handshakeWriteSeq, 0, body))
    {
      if |body| >= 0x100_0000 { return None; }
      FinishedIsRaw(typ, handshakeWriteSeq, body);
      data := Finish(Unfinished(typ, handshakeWriteSeq, body));
      if handshakeWriteSeq < 0x1_0000 { RawIsSingle(typ, handshakeWriteSeq, body); }
    }

    /** dtls_clear_outgoing_messages. */
    method ClearOutgoing()
      modifies this`outgoing, this`outgoingWritten, this`outgoingOffset, flags
      ensures Flying() == CLEARED && Position() == Cursor(0, 0)
    {
      outgoing, outgoingWritten, outgoingOffset, flags.complete, flags.hasReply := [], 0, 0, false, false;
    }

    /** add_outgoing: a new flight stops the timer and replaces a completed one; a
        handshake message is hashed and uses up a sequence number. Messages numbered
        by the write counter keep their numbers apart. */
    method AddOutgoing(isCcs: bool, data: seq<byte>) returns (ok: bool)
      requires Valid()
      modifies this, timer, flags
      ensures Valid() && wEpoch == old(wEpoch) && timer.mtu == old(timer.mtu)
      ensures timer.Value() == if old(flags.complete) then T.Stopped(old(timer.Value()), timer.initial)
              else old(timer.Value())
      ensures var kept := if old(flags.complete) then [] else old(outgoing);
              var message := if isCcs then Ccs(wEpoch) else Handshake(data, wEpoch);
              (ok <==> |kept| < maxFlight) && Flying() == Step(old(Flying()), maxFlight, Add(message))
              && outgoing == (if ok then kept + [message] else kept)
              && Position() == if old(flags.complete) then Cursor(0, 0) else old(Position())
      ensures !flags.complete && flags.hasReply == (!old(flags.complete) && old(flags.hasReply))
      ensures ok && !isCcs ==> transcript == old(transcript) + [data] && handshakeWriteSeq == old(handshakeWriteSeq) + 1
      ensures !ok || isCcs ==> transcript == old(transcript) && handshakeWriteSeq == old(handshakeWriteSeq)
      ensures old(Numbered(outgoing, handshakeWriteSeq))
              && (isCcs || (Single(data).Some? && Single(data).value.seqNo == old(handshakeWriteSeq)))
              ==> Numbered(outgoing, handshakeWriteSeq)
    {
      hide BytesLeft, Single, T.Normal, DistinctNumbers;
      if flags.complete {
        timer.StopTimer();
        ClearOutgoing();
        NothingNumbered(handshakeWriteSeq);
      }
      if |outgoing| >= maxFlight { return false; }
      var message := if isCcs then Ccs(wEpoch) else Handshake(data, wEpoch);
      ghost var before, next := outgoing, handshakeWriteSeq;
      if !isCcs {
        transcript := transcript + [data];
        handshakeWriteSeq := handshakeWriteSeq + 1;
      }
      outgoing := outgoing + [message];
      StillInFlight(before, message, Position());
      if Numbered(before, next) && (isCcs || (Single(data).Some? && Single(data).value.seqNo == next)) {
        AddedNumbered(before, message, next);
      }
      return true;
    }

    /** dtls1_on_handshake_complete: the timer stops; a flight without a reply is
        kept for retransmission. */
    method OnHandshakeComplete()
      requires Valid()
      modifies this`outgoing, this`outgoingWritten, this`outgoingOffset, timer, flags
      ensures Valid() && timer.Value() == T.Stopped(old(timer.Value()), timer.initial) && timer.mtu == old(timer.mtu)
      ensures Flying() == Step(old(Flying()), maxFlight, Complete)
      ensures Position() == if old(flags.hasReply) then Cursor(0, 0) else old(Position())
    {
      timer.StopTimer();
      if flags.hasReply { ClearOutgoing(); }
    }

    // ----- sealing and sending -----

    /** seal_next_message. */
    method SealNextMessage(maxOut: nat, env: Environment) returns (result: SealResult)
      requires Valid() && outgoingWritten < |outgoing|
      modifies this`outgoingOffset
      ensures result == Seal(outgoing, wEpoch, env, old(Position()), maxOut)
      ensures result.Sealed? ==> outgoingOffset == 0
      ensures result.Partial? ==> result.item.FragItem? && outgoingOffset == old(outgoingOffset) + |result.item.f.body|
      ensures result.SealError? || result.NoProgress? ==> outgoingOffset == old(outgoingOffset)
    {
      var msg := outgoing[outgoingWritten];
      var aead := env.current;
      if wEpoch >= 1 && msg.epoch == wEpoch - 1 {
        aead := env.previous;
      } else if msg.epoch != wEpoch {
        return SealError;
      }
      if msg.Ccs? {
        if maxOut < 1 + aead.overhead { return NoProgress; }
        if !env.seals(Position()) { return SealError; }
        var outLen := Min(env.length(Position()), 1 + aead.overhead);
        outgoingOffset := 0;
        return Sealed(CcsItem, outLen);
      }
      var parsed := Single(msg.data);
      if parsed.None? || outgoingOffset > |parsed.value.body| { return SealError; }
      var hdr := parsed.value;
      if maxOut < R.HEADER + 1 + aead.overhead || maxOut < aead.prefix { return NoProgress; }
      var todo := |hdr.body| - outgoingOffset;
      if todo > maxOut - R.HEADER - aead.overhead { todo := maxOut - R.HEADER - aead.overhead; }
      if R.HEADER + todo > maxOut - aead.prefix { return SealError; }
      if !env.seals(Position()) { return SealError; }
      var f := Fragment(hdr.typ, hdr.msgLen, hdr.seqNo, outgoingOffset,
          hdr.body[outgoingOffset..outgoingOffset + todo]);
      var outLen := Min(env.length(Position()), R.HEADER + todo + aead.overhead);
      if todo == |hdr.body| - outgoingOffset {
        outgoingOffset := 0;
        return Sealed(FragItem(f), outLen);
      }
      outgoingOffset := outgoingOffset + todo;
      return Partial(FragItem(f), outLen);
    }

    /** seal_next_packet: as many items as fit; the cursor stands after the items
        sealed, even when sealing fails half-way. */
    method SealNextPacket(maxOut: nat, env: Environment) returns (ok: bool, outLen: nat, items: seq<Item>)
      requires Valid() && outgoingWritten < |outgoing|
      modifies this`outgoingWritten, this`outgoingOffset
      ensures Valid() && outLen <= maxOut
      ensures var p := Pack(outgoing, wEpoch, env, old(Position()), maxOut);
              items == p.items && Position() == p.cursor && (ok <==> !p.failed && p.items != [])
    {
      hide Seal, Pack, Advance, BytesLeft;
      items := [];
      var total, room := 0, maxOut;
      while outgoingWritten < |outgoing|
        invariant Valid() && total >= 0 && room >= 0 && total + room == maxOut
        invariant var p := Pack(outgoing, wEpoch, env, Position(), room);
                  Pack(outgoing, wEpoch, env, old(Position()), maxOut) == p.(items := items + p.items)
        decreases |outgoing| - outgoingWritten
      {
        SealAdvances(outgoing, wEpoch, env, Position(), room);
        PackUnfolds(outgoing, wEpoch, env, Position(), room, items);
        var result := SealNextMessage(room, env);
        if result.SealError? { return false, total, items; }
        if result.NoProgress? { return items != [], total, items; }
        room := room - result.length;
        total := total + result.length;
        items := items + [result.item];
        if result.Partial? { return true, total, items; }
        outgoingWritten := outgoingWritten + 1;
      }
      PackEnds(outgoing, wEpoch, env, Position(), room);
      assert items + [] == items;
      return items != [], total, items;
    }

    /** dtls1_update_mtu. The assertion at its end, that the MTU is acceptable now,
        holds exactly if it was before or the BIO may be asked. */
    method UpdateMtu(answer: int)
      modifies timer`mtu
      ensures timer.mtu == UpdatedMtu(old(timer.mtu), timer.queryMtu, answer)
      ensures timer.mtu >= MIN_MTU <==> old(timer.mtu) >= MIN_MTU || timer.queryMtu
      ensures timer.mtu == if old(timer.mtu) >= 228 || !timer.queryMtu then old(timer.mtu)
                           else if 228 <= answer <= 0x4000_0000 then answer else 1472
    {
      if timer.mtu < MIN_MTU && timer.queryMtu {
        if 0 <= answer <= 0x4000_0000 && answer >= MIN_MTU { timer.mtu := answer; } else { timer.mtu := DEFAULT_MTU; }
      }
    }

    /** send_flight. A failed write rewinds to its packet; a failure to seal does
        not (LostExactly says when that loses items). */
    method SendFlight(shutDown: bool, answer: int, env: Environment)
      returns (result: FlightResult, delivered: seq<Item>, lost: seq<Item>)
      requires Valid()
      modifies this`outgoingWritten, this`outgoingOffset, timer`mtu
      ensures Valid()
      ensures shutDown ==> result.ShutDown? && delivered == [] && lost == [] && Position() == old(Position())
                           && timer.mtu == old(timer.mtu)
      ensures !shutDown ==> timer.mtu == UpdatedMtu(old(timer.mtu), timer.queryMtu, answer)
                            && Sending(result, delivered, lost, Position())
                               == Send(outgoing, wEpoch, env, timer.mtu, old(Position()))
    {
      hide Send, Pack, BytesLeft;
      delivered, lost := [], [];
      if shutDown { return ShutDown, [], []; }
      UpdateMtu(answer);
      var mtu := timer.mtu;
      while outgoingWritten < |outgoing|
        invariant Valid() && timer.mtu == mtu
        invariant var s := Send(outgoing, wEpoch, env, mtu, Position());
                  Send(outgoing, wEpoch, env, mtu, old(Position())) == s.(delivered := delivered + s.delivered)
        decreases |outgoing| - outgoingWritten, BytesLeft(outgoing, Position())
      {
        var oldWritten, oldOffset := outgoingWritten, outgoingOffset;
        PackMoves(outgoing, wEpoch, env, Position(), mtu);
        SendUnfolds(outgoing, wEpoch, env, mtu, Position(), delivered);
        var ok, packetLen, items := SealNextPacket(mtu, env);
        if !ok { return SealFailed, delivered, items; }
        var written := env.writes(Cursor(oldWritten, oldOffset));
        if !written {
          outgoingWritten, outgoingOffset := oldWritten, oldOffset;
          return WriteBlocked, delivered, [];
        }
        delivered := delivered + items;
      }
      SendEnds(outgoing, wEpoch, env, mtu, Position());
      assert delivered + [] == delivered;
      return if env.flushes then FlightSent else WriteBlocked, delivered, [];
    }

    /** dtls1_flush_flight: starts the timer and sends the flight from the cursor
        on. A flight that is sent from its start carries every message once. */
    method FlushFlight(now: T.Time, shutDown: bool, answer: int, env: Environment)
      returns (result: FlightResult, delivered: seq<Item>, lost: seq<Item>)
      requires Valid() && T.Normal(now)
      modifies this`outgoingWritten, this`outgoingOffset, flags`complete, timer
      ensures Valid() && Flying() == Step(old(Flying()), maxFlight, Flush)
      ensures timer.Value() == T.Started(old(timer.Value()), timer.initial, now)
      ensures shutDown ==> result.ShutDown? && delivered == [] && lost == [] && Position() == old(Position())
      ensures !shutDown ==> timer.mtu == UpdatedMtu(old(timer.mtu), timer.queryMtu, answer)
                            && Sending(result, delivered, lost, Position())
                               == Send(outgoing, wEpoch, env, timer.mtu, old(Position()))
      ensures result.FlightSent? && old(Position()) == Cursor(0, 0) && Numbered(outgoing, handshakeWriteSeq)
              ==> CarriesAll(outgoing, delivered)
    {
      hide BytesLeft, Pack, Single;
      flags.complete := true;
      timer.StartTimer(now);
      ghost var c := Position();
      result, delivered, lost := SendFlight(shutDown, answer, env);
      if result.FlightSent? {
        SendAdvances(outgoing, wEpoch, env, timer.mtu, c);
        assert delivered + [] == delivered;
        if c == Cursor(0, 0) && Numbered(outgoing, handshakeWriteSeq) {
          CompleteCarriesAll(outgoing, delivered, handshakeWriteSeq);
        }
      }
    }

    /** dtls1_retransmit_outgoing_messages: the whole flight again. */
    method Retransmit(shutDown: bool, answer: int, env: Environment)
      returns (result: FlightResult, delivered: seq<Item>, lost: seq<Item>)
      requires Valid()
      modifies this`outgoingWritten, this`outgoingOffset, timer`mtu
      ensures Valid()
      ensures shutDown ==> result.ShutDown? && delivered == [] && lost == [] && Position() == Cursor(0, 0)
                           && timer.mtu == old(timer.mtu)
      ensures !shutDown ==> timer.mtu == UpdatedMtu(old(timer.mtu), timer.queryMtu, answer)
                            && Sending(result, delivered, lost, Position())
                               == Send(outgoing, wEpoch, env, timer.mtu, Cursor(0, 0))
      ensures result.FlightSent? && Numbered(outgoing, handshakeWriteSeq) ==> CarriesAll(outgoing, delivered)
    {
      hide Pack, Single;
      outgoingWritten, outgoingOffset := 0, 0;
      result, delivered, lost := SendFlight(shutDown, answer, env);
      if result.FlightSent? {
        SendAdvances(outgoing, wEpoch, env, timer.mtu, Cursor(0, 0));
        assert delivered + [] == delivered;
        if Numbered(outgoing, handshakeWriteSeq) { CompleteCarriesAll(outgoing, delivered, handshakeWriteSeq); }
      }
    }

    /** DTLSv1_handle_timeout, with the retransmission it ends in. */
    method HandleTimeout(checked: T.Time, restarted: T.Time, fallback: int, shutDown: bool, answer: int,
                         env: Environment)
      returns (outcome: T.Outcome, result: FlightResult, delivered: seq<Item>, lost: seq<Item>)
      requires Valid() && T.Normal(checked) && T.Normal(restarted)
      modifies this`outgoingWritten, this`outgoingOffset, timer
      ensures Valid()
      ensures (timer.Value(), outcome) == T.Handled(old(timer.Value()), timer.initial, checked, restarted)
      ensures !outcome.Retransmit? ==> delivered == [] && lost == [] && Position() == old(Position())
      ensures outcome.Retransmit? && shutDown ==>
                result.ShutDown? && delivered == [] && lost == [] && Position() == Cursor(0, 0)
      ensures outcome.Retransmit? && !shutDown ==>
                Sending(result, delivered, lost, Position()) == Send(outgoing, wEpoch, env, timer.mtu, Cursor(0, 0))
      ensures var usesFallback := T.Expired(old(timer.Value()), checked) && timer.timeouts > T.MTU_TIMEOUTS
              && timer.queryMtu && MIN_MTU <= fallback <= 0x4000_0000;
              var mtu := if usesFallback then fallback else old(timer.mtu);
              timer.mtu == if outcome.Retransmit? && !shutDown then UpdatedMtu(mtu, timer.queryMtu, answer) else mtu
      ensures outcome.Retransmit? && result.FlightSent? && Numbered(outgoing, handshakeWriteSeq) ==>
                CarriesAll(outgoing, delivered)
    {
      hide Pack, Single, BytesLeft;
      outcome := timer.HandleTimeout(checked, restarted, fallback, MIN_MTU);
      result, delivered, lost := ShutDown, [], [];
      if outcome.Retransmit? { result, delivered, lost := Retransmit(shutDown, answer, env); }
    }
  }

  lemma NothingNumbered(next: nat)
    ensures Numbered([], next)
  {
  }

  /** A message more leaves the cursor where it was, in the flight. */
  lemma StillInFlight(flight: seq<OutMessage>, m: OutMessage, c: Cursor)
    requires InFlight(flight, c)
    ensures InFlight(flight + [m], c)
  {
  }
}
