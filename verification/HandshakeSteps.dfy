/** Every call keeps the order of the message flow, state by state. */
module HandshakeSteps {
  import opened Wrappers
  import opened HandshakeTypes
  import opened HandshakeOrder
  import C = HandshakeClient
  import S = HandshakeServer

  ghost predicate Running(hs: Hs) { Good(Machine(hs, Ok)) && !hs.tls13 }
  ghost predicate Kept(r: (Hs, Wait)) { Good(Machine(r.0, r.1)) }

  lemma FlagsOf(hs: Hs)
    requires Running(hs)
    ensures FlagsOk(hs, Ok)
  {
  }

  /** TLS 1.3 is not described further. */
  lemma NewVersion(hs: Hs, w: Wait)
    requires hs.tls13
    ensures Good(Machine(hs, w))
  {
  }

  /** A call that takes one step: over one event, over the place of one that need
      not happen, or none at all. */
  lemma Takes(hs: Hs, hs': Hs, w: Wait, e: Event, r: nat)
    requires Running(hs) && w != Error && hs' == hs.(state := hs'.state, trace := hs.trace + [e])
    requires hs'.state.Client? == hs.state.Client? && FlagsOk(hs', w)
    requires Position(hs, Ok) == r && Position(hs', w) == r + 1
    requires Rank(hs, e) == r && Possible(hs, e) && (Must(hs, r).Some? ==> Must(hs, r).value == e)
    ensures Good(Machine(hs', w))
  {
    hide Position, Rank, Possible, Must, FlagsOk, Good, Between;
    One(hs, e, r);
    Moves(hs, hs', w, [e]);
  }

  lemma Skips(hs: Hs, hs': Hs, w: Wait, r: nat)
    requires Running(hs) && w != Error && hs' == hs.(state := hs'.state)
    requires hs'.state.Client? == hs.state.Client? && FlagsOk(hs', w)
    requires Position(hs, Ok) == r && r <= Position(hs', w) <= r + 1
    requires Position(hs', w) == r + 1 ==> Must(hs, r).None?
    ensures Good(Machine(hs', w))
  {
    hide Position, Rank, Possible, Must, FlagsOk, Good, Between;
    if Position(hs', w) == r { Nothing(hs, r); } else { Gap(hs, r); }
    assert hs.trace + [] == hs.trace;
    Moves(hs, hs', w, []);
  }

  /** A message that must come, and takes the handshake from one state to the
      next. */
  lemma ClientExpects(hs: Hs, i: In, m: Msg, next: ClientState, r: nat)
    requires Running(hs) && hs.state.Client?
    requires FlagsOk(ToC(Log(hs, [Got(m)]), next), Ok)
    requires Position(hs, Ok) == r && Position(ToC(Log(hs, [Got(m)]), next), Ok) == r + 1
    requires Rank(hs, Got(m)) == r && Possible(hs, Got(m)) && (Must(hs, r).Some? ==> Must(hs, r).value == Got(m))
    ensures Kept(C.Expect(hs, i, m, next))
  {
    hide Position, Rank, Possible, Must, FlagsOk, Good;
    if i.msg == Some(m) && i.ok {
      Takes(hs, ToC(Log(hs, [Got(m)]), next), Ok, Got(m), r);
    } else {
      Stays(hs, Missing(i));
    }
  }

  lemma ServerExpects(hs: Hs, i: In, m: Msg, next: ServerState, r: nat)
    requires Running(hs) && hs.state.Server?
    requires FlagsOk(ToS(Log(hs, [Got(m)]), next), Ok)
    requires Position(hs, Ok) == r && Position(ToS(Log(hs, [Got(m)]), next), Ok) == r + 1
    requires Rank(hs, Got(m)) == r && Possible(hs, Got(m)) && (Must(hs, r).Some? ==> Must(hs, r).value == Got(m))
    ensures Kept(S.Expect(hs, i, m, next))
  {
    hide Position, Rank, Possible, Must, FlagsOk, Good;
    if i.msg == Some(m) && i.ok {
      Takes(hs, ToS(Log(hs, [Got(m)]), next), Ok, Got(m), r);
    } else {
      Stays(hs, Missing(i));
    }
  }

  lemma ClientStartConnect(hs: Hs, i: In)
    requires Running(hs) && hs.state == Client(StartConnect)
    ensures Kept(C.DoStartConnect(hs, i))
  {
    hide Good, Flow, Between, Increasing, Settled;
    FlagsOf(hs);
    var (hs', w) := C.DoStartConnect(hs, i);
    if w != Flush {
      Stays(hs, w);
    } else {
      NothingBehind(hs, hs');
      One(hs', Sent(ClientHello), 0);
      Changes(hs, hs', w, [Sent(ClientHello)]);
    }
  }

  lemma NoFirstFlight(hs: Hs)
    requires hs.state.Client?
    ensures Between(hs, [], 1, 3)
  {
    assert forall r: nat :: 1 <= r < 3 ==> Must(hs, r).None?;
  }

  lemma EarlyFlight(hs: Hs)
    requires hs.state.Client? && hs.setup.earlyOffered
    ensures Between(hs, [EarlyCcs, EarlyKeys], 1, 3)
  {
    hide Between;
    One(hs, EarlyCcs, 1);
    One(hs, EarlyKeys, 2);
    Then(hs, [EarlyCcs], [EarlyKeys], 1, 2, 3);
    assert [EarlyCcs] + [EarlyKeys] == [EarlyCcs, EarlyKeys];
  }

  lemma HelloFlight(hs: Hs)
    requires hs.state.Client? && hs.setup.dtls
    ensures Between(hs, [Got(HelloVerifyRequest), SecondHello], 1, 3)
  {
    hide Between;
    One(hs, Got(HelloVerifyRequest), 1);
    One(hs, SecondHello, 2);
    Then(hs, [Got(HelloVerifyRequest)], [SecondHello], 1, 2, 3);
    assert [Got(HelloVerifyRequest)] + [SecondHello] == [Got(HelloVerifyRequest), SecondHello];
  }

  lemma ClientEnterEarlyData(hs: Hs, i: In)
    requires Running(hs) && hs.state == Client(EnterEarlyData)
    ensures Kept(C.DoEnterEarlyData(hs, i))
  {
    hide Good, Flow, Between, Increasing, Settled;
    FlagsOf(hs);
    var (hs', w) := C.DoEnterEarlyData(hs, i);
    if hs.setup.dtls {
      Skips(hs, hs', w, 1);
    } else if !hs.setup.earlyOffered {
      NoFirstFlight(hs);
      assert hs.trace + [] == hs.trace;
      Moves(hs, hs', w, []);
    } else {
      EarlyFlight(hs);
      if i.ok { Moves(hs, hs', w, [EarlyCcs, EarlyKeys]); } else { Fails(hs, [EarlyCcs, EarlyKeys], i.done, 1, 3); }
    }
  }

  lemma ClientReadHelloVerifyRequest(hs: Hs, i: In)
    requires Running(hs) && hs.state == Client(ReadHelloVerifyRequest)
    ensures Kept(C.DoReadHelloVerifyRequest(hs, i))
  {
    hide Good, Flow, Between, Increasing, Settled;
    FlagsOf(hs);
    var (hs', w) := C.DoReadHelloVerifyRequest(hs, i);
    if i.msg.None? {
      Stays(hs, ReadMessage);
    } else if i.msg.value != HelloVerifyRequest {
      NoFirstFlight(hs);
      assert hs.trace + [] == hs.trace;
      Moves(hs, hs', w, []);
    } else {
      HelloFlight(hs);
      var es := [Got(HelloVerifyRequest), SecondHello];
      if i.ok { Moves(hs, hs', w, es); } else { Fails(hs, es, i.done, 1, 3); }
    }
  }

  lemma ClientReadServerHello(hs: Hs, i: In)
    requires Running(hs) && hs.state == Client(ClientState.ReadServerHello)
    ensures Kept(C.DoReadServerHello(hs, i))
  {
    hide Good, Flow, Between, Increasing, Settled;
    FlagsOf(hs);
    var (hs', w) := C.DoReadServerHello(hs, i);
    if w != Ok {
      Stays(hs, w);
    } else if hs'.tls13 {
      NewVersion(hs', w);
    } else {
      BeforeServerHello(hs, hs');
      One(hs', Got(ServerHello), 3);
      Changes(hs, hs', Ok, [Got(ServerHello)]);
    }
  }

  lemma ClientReadServerCertificate(hs: Hs, i: In)
    requires Running(hs) && hs.state == Client(ReadServerCertificate)
    ensures Kept(C.DoReadServerCertificate(hs, i))
  {
    hide Good, Flow, C.Expect;
    FlagsOf(hs);
    if !hs.cipher.usesCert {
      Skips(hs, ToC(hs, ReadCertificateStatus), Ok, 4);
    } else {
      ClientExpects(hs, i, Certificate, ReadCertificateStatus, 4);
    }
  }

  lemma ClientReadCertificateStatus(hs: Hs, i: In)
    requires Running(hs) && hs.state == Client(ReadCertificateStatus)
    ensures Kept(C.DoReadCertificateStatus(hs, i))
  {
    hide Good, Flow, Between, Increasing, Settled;
    FlagsOf(hs);
    if !hs.auth.statusExpected || (i.msg.Some? && i.msg.value != CertificateStatus) {
      Skips(hs, ToC(hs, VerifyServerCertificate), Ok, 5);
    } else {
      ClientExpects(hs, i, CertificateStatus, VerifyServerCertificate, 5);
    }
  }

  lemma ClientVerifyServerCertificate(hs: Hs, i: In)
    requires Running(hs) && hs.state == Client(VerifyServerCertificate)
    ensures Kept(C.DoVerifyServerCertificate(hs, i))
  {
    hide Good, Flow;
    FlagsOf(hs);
    if !hs.cipher.usesCert || i.callback.Success? {
      Skips(hs, ToC(hs, ReadServerKeyExchange), Ok, 6);
    } else {
      Stays(hs, C.DoVerifyServerCertificate(hs, i).1);
    }
  }

  lemma ClientReadServerKeyExchange(hs: Hs, i: In)
    requires Running(hs) && hs.state == Client(ReadServerKeyExchange)
    ensures Kept(C.DoReadServerKeyExchange(hs, i))
  {
    hide Good, Flow, Between, Increasing, Settled;
    FlagsOf(hs);
    if i.msg.Some? && i.msg.value != ServerKeyExchange {
      if hs.cipher.requiresSke { Stays(hs, Error); } else { Skips(hs, ToC(hs, ReadCertificateRequest), Ok, 6); }
    } else {
      ClientExpects(hs, i, ServerKeyExchange, ReadCertificateRequest, 6);
    }
  }

  lemma ClientReadCertificateRequest(hs: Hs, i: In)
    requires Running(hs) && hs.state == Client(ReadCertificateRequest)
    ensures Kept(C.DoReadCertificateRequest(hs, i))
  {
    hide Good, Flow, Between, Increasing, Settled;
    FlagsOf(hs);
    if !hs.cipher.usesCert || (i.msg.Some? && i.msg.value == ServerHelloDone) {
      Skips(hs, ToC(hs, ReadServerHelloDone), Ok, 7);
    } else if i.msg == Some(CertificateRequest) && i.ok {
      var hs' := ToC(Log(Asking(hs, true), [Got(CertificateRequest)]), ReadServerHelloDone);
      AskedForCertificate(hs, hs');
      One(hs', Got(CertificateRequest), 7);
      Changes(hs, hs', Ok, [Got(CertificateRequest)]);
    } else {
      Stays(hs, Missing(i));
    }
  }

  lemma ClientReadServerHelloDone(hs: Hs, i: In)
    requires Running(hs) && hs.state == Client(ReadServerHelloDone)
    ensures Kept(C.DoReadServerHelloDone(hs, i))
  {
    hide Good, Flow, C.Expect;
    FlagsOf(hs);
    ClientExpects(hs, i, ServerHelloDone, SendClientCertificate, 8);
  }

  lemma ClientSendClientCertificate(hs: Hs, i: In)
    requires Running(hs) && hs.state == Client(SendClientCertificate)
    ensures Kept(C.DoSendClientCertificate(hs, i))
  {
    hide Good, Flow, Between, Increasing, Settled;
    FlagsOf(hs);
    var (hs', w) := C.DoSendClientCertificate(hs, i);
    if !hs.auth.certRequest {
      Skips(hs, hs', w, 9);
    } else if w != Ok {
      Stays(hs, w);
    } else {
      Takes(hs, hs', w, if !i.certificate && hs.cipher.ssl3 then NoCertificateAlert else Sent(Certificate), 9);
    }
  }

  lemma ClientSendClientKeyExchange(hs: Hs, i: In)
    requires Running(hs) && hs.state == Client(SendClientKeyExchange)
    ensures Kept(C.DoSendClientKeyExchange(hs, i))
  {
    hide Good, Flow, Between, Increasing, Settled;
    FlagsOf(hs);
    var (hs', w) := C.DoSendClientKeyExchange(hs, i);
    var es := [Sent(ClientKeyExchange)];
    One(hs, Sent(ClientKeyExchange), 10);
    if w == Error {
      Fails(hs, es, i.done, 10, 11);
    } else {
      Moves(hs, hs', w, es);
    }
  }

  lemma ClientSendClientCertificateVerify(hs: Hs, i: In)
    requires Running(hs) && hs.state == Client(SendClientCertificateVerify)
    ensures Kept(C.DoSendClientCertificateVerify(hs, i))
  {
    hide Good, Flow;
    FlagsOf(hs);
    if !hs.auth.certRequest || !i.certificate {
      Skips(hs, ToC(hs, SendClientFinished), Ok, 11);
    } else if i.callback.Success? && i.ok {
      Takes(hs, ToC(Log(hs, [Sent(CertificateVerify)]), SendClientFinished), Ok, Sent(CertificateVerify), 11);
    } else {
      Stays(hs, C.DoSendClientCertificateVerify(hs, i).1);
    }
  }

  function FinishedFlight(hs: Hs): seq<Event> {
    [SentCcs, WriteKeys] + If(hs.ext.nextProto, Sent(NextProto)) + If(hs.ext.channelId, Sent(ChannelId))
        + [Sent(Finished)]
  }

  lemma ClientSendClientFinished(hs: Hs, i: In)
    requires Running(hs) && hs.state == Client(SendClientFinished)
    ensures Kept(C.DoSendClientFinished(hs, i))
  {
    hide Good, Flow, Between, Increasing, Settled;
    FlagsOf(hs);
    var (hs', w) := C.DoSendClientFinished(hs, i);
    if hs.ext.channelId && !i.callback.Success? {
      Stays(hs, w);
    } else {
      ClientFinishedFlight(hs);
      if i.ok { Moves(hs, hs', w, FinishedFlight(hs)); } else { Fails(hs, FinishedFlight(hs), i.done, 12, 17); }
    }
  }

  lemma ClientFinishFlight(hs: Hs, i: In)
    requires Running(hs) && hs.state == Client(FinishFlight)
    ensures Kept(C.DoFinishFlight(hs, i))
  {
    hide Good, Flow, Between, Increasing, Settled;
    FlagsOf(hs);
    var (hs', w) := C.DoFinishFlight(hs, i);
    if w == Error {
      Stays(hs, w);
    } else if hs.session {
      AfterResumedFinished(hs);
      assert hs.trace + [] == hs.trace;
      Moves(hs, hs', w, []);
    } else {
      Skips(hs, hs', w, 17);
    }
  }

  lemma ClientReadSessionTicket(hs: Hs, i: In)
    requires Running(hs) && hs.state == Client(ReadSessionTicket)
    ensures Kept(C.DoReadSessionTicket(hs, i))
  {
    if hs.ext.ticketExpected { ClientReadsTicket(hs, i); } else { ClientSkipsTicket(hs, i); }
  }

  lemma ClientSkipsTicket(hs: Hs, i: In)
    requires Running(hs) && hs.state == Client(ReadSessionTicket) && !hs.ext.ticketExpected
    ensures Kept(C.DoReadSessionTicket(hs, i))
  {
    hide Good, Flow, Between, Increasing, Settled;
    FlagsOf(hs);
    var (hs', w) := C.DoReadSessionTicket(hs, i);
    Skips(hs, hs', w, if hs.session then 4 else 17);
  }

  lemma ClientReadsTicket(hs: Hs, i: In)
    requires Running(hs) && hs.state == Client(ReadSessionTicket) && hs.ext.ticketExpected
    ensures Kept(C.DoReadSessionTicket(hs, i))
  {
    hide Good, Flow, Between, Increasing, Settled, Position, Rank, Must, Possible, FlagsOk;
    FlagsOf(hs);
    var (hs', w) := C.DoReadSessionTicket(hs, i);
    if w == Wait.ReadChangeCipherSpec {
      TicketTaken(hs, hs');
      TicketPlaced(hs, hs');
      Changes(hs, hs', w, [Got(NewSessionTicket)]);
    } else {
      Stays(hs, w);
    }
  }

  lemma ClientProcessChangeCipherSpec(hs: Hs, i: In)
    requires Running(hs) && hs.state == Client(ClientState.ProcessChangeCipherSpec)
    ensures Kept(C.DoProcessChangeCipherSpec(hs, i))
  {
    hide Good, Flow;
    FlagsOf(hs);
    if i.ok {
      Takes(hs, ToC(Log(hs, [ReadKeys]), ReadServerFinished), Ok, ReadKeys, if hs.session then 6 else 19);
    } else {
      Stays(hs, Error);
    }
  }

  lemma ClientReadServerFinished(hs: Hs, i: In)
    requires Running(hs) && hs.state == Client(ReadServerFinished)
    ensures Kept(C.DoReadServerFinished(hs, i))
  {
    hide Good, Flow, Between, Increasing, Settled;
    FlagsOf(hs);
    if !hs.session {
      ClientExpects(hs, i, Finished, FinishClientHandshake, 20);
    } else if i.msg == Some(Finished) && i.ok {
      ResumedServerFinished(hs);
      Moves(hs, ToC(Log(hs, [Got(Finished)]), SendClientFinished), Ok, [Got(Finished)]);
    } else {
      Stays(hs, Missing(i));
    }
  }

  lemma ClientFinishClientHandshake(hs: Hs, i: In)
    requires Running(hs) && hs.state == Client(FinishClientHandshake)
    ensures Kept(C.DoFinishClientHandshake(hs, i))
  {
    hide Good, Flow;
    FlagsOf(hs);
    if i.ok { Takes(hs, ToC(Log(hs, [Complete]), ClientState.Done), Ok, Complete, 21); } else { Stays(hs, Error); }
  }

  lemma NothingBehind(hs: Hs, hs': Hs)
    requires hs'.state.Client? == hs.state.Client?
    ensures Settled(hs, hs', 0)
  {
    hide Rank, Must, Possible;
  }

  /** Before the ServerHello nothing depends on what it will say. */
  lemma BeforeServerHello(hs: Hs, hs': Hs)
    requires hs.state.Client? && hs'.state.Client? && !hs.setup.earlyOffered && hs'.setup.dtls == hs.setup.dtls
    ensures Settled(hs, hs', 3)
  {
    forall e | Possible(hs, e) && Rank(hs, e) < 3 ensures Possible(hs', e) && Rank(hs', e) == Rank(hs, e) {
      assert e in {Sent(ClientHello), Got(HelloVerifyRequest), SecondHello};
    }
  }

  lemma AskedForCertificate(hs: Hs, hs': Hs)
    requires hs.state.Client? && hs'.state.Client? && !hs.auth.certRequest
    requires hs' == Asking(hs, true).(state := hs'.state, trace := hs'.trace)
    ensures Settled(hs, hs', 7)
  {
    SameRank(hs, hs');
    assert forall r: nat :: r < 7 ==> Must(hs', r) == Must(hs, r);
  }

  lemma TicketTaken(hs: Hs, hs': Hs)
    requires hs.state.Client? && hs'.state.Client?
    requires hs' == Expecting(hs, hs'.ext.ticketExpected).(state := hs'.state, trace := hs'.trace)
    ensures Settled(hs, hs', if hs.session then 4 else 17)
  {
    SameRank(hs, hs');
    assert forall r: nat :: r < (if hs.session then 4 else 17) ==> Must(hs', r) == Must(hs, r);
  }

  lemma TicketPlaced(hs: Hs, hs': Hs)
    requires hs.state == Client(ReadSessionTicket) && hs.ext.ticketExpected && FlagsOk(hs, Ok)
    requires hs' == ToC(Log(Expecting(hs, hs'.ext.ticketExpected), [Got(NewSessionTicket)]),
                        ClientState.ProcessChangeCipherSpec)
    ensures Position(hs, Ok) == if hs.session then 4 else 17
    ensures FlagsOk(hs', Wait.ReadChangeCipherSpec)
    ensures Between(hs', [Got(NewSessionTicket)], Position(hs, Ok), Position(hs', Wait.ReadChangeCipherSpec))
  {
    One(hs', Got(NewSessionTicket), if hs.session then 4 else 17);
    hide Between;
  }

  lemma ClientFinishedFlight(hs: Hs)
    requires hs.state.Client?
    ensures Between(hs, FinishedFlight(hs), 12, 17)
  {
    hide Between;
    One(hs, SentCcs, 12);
    One(hs, WriteKeys, 13);
    Then(hs, [SentCcs], [WriteKeys], 12, 13, 14);
    assert [SentCcs] + [WriteKeys] == [SentCcs, WriteKeys];
    Maybe(hs, hs.ext.nextProto, Sent(NextProto), 14);
    Then(hs, [SentCcs, WriteKeys], If(hs.ext.nextProto, Sent(NextProto)), 12, 14, 15);
    Maybe(hs, hs.ext.channelId, Sent(ChannelId), 15);
    Then(hs, [SentCcs, WriteKeys] + If(hs.ext.nextProto, Sent(NextProto)), If(hs.ext.channelId, Sent(ChannelId)), 12,
        15, 16);
    One(hs, Sent(Finished), 16);
    Then(hs, [SentCcs, WriteKeys] + If(hs.ext.nextProto, Sent(NextProto)) + If(hs.ext.channelId, Sent(ChannelId)),
        [Sent(Finished)], 12, 16, 17);
  }

  /** In a resumption the server is already done when the client has finished. */
  lemma AfterResumedFinished(hs: Hs)
    requires hs.state.Client? && hs.session
    ensures Between(hs, [], 17, 21)
  {
    assert forall r: nat :: 17 <= r < 21 ==> Must(hs, r).None?;
  }

  /** And the client's ChangeCipherSpec comes right after the server's Finished. */
  lemma ResumedServerFinished(hs: Hs)
    requires hs.state.Client? && hs.session
    ensures Between(hs, [Got(Finished)], 7, 12)
  {
    One(hs, Got(Finished), 7);
    assert forall r: nat :: 8 <= r < 12 ==> Must(hs, r).None?;
  }

  lemma ServerStartAccept(hs: Hs, i: In)
    requires Running(hs) && hs.state == Server(StartAccept)
    ensures Kept(S.DoStartAccept(hs, i))
  {
    hide Good, Flow, Between, Increasing, Settled;
    FlagsOf(hs);
    var (hs', w) := S.DoStartAccept(hs, i);
    Skips(hs, hs', w, 0);
  }

  lemma ServerReadClientHello(hs: Hs, i: In)
    requires Running(hs) && hs.state == Server(ReadClientHello)
    ensures Kept(S.DoReadClientHello(hs, i))
  {
    hide Good, Flow, Between, Increasing, Settled;
    FlagsOf(hs);
    var (hs', w) := S.DoReadClientHello(hs, i);
    if w != Ok {
      Stays(hs, w);
    } else if hs'.tls13 {
      NewVersion(hs', w);
    } else {
      NothingBehind(hs, hs');
      Nothing(hs', 0);
      assert hs.trace + [] == hs.trace;
      Changes(hs, hs', w, []);
    }
  }

  lemma ServerSelectCertificate(hs: Hs, i: In)
    requires Running(hs) && hs.state == Server(SelectCertificate)
    ensures Kept(S.DoSelectCertificate(hs, i))
  {
    hide Good, Flow, Between, Increasing, Settled;
    FlagsOf(hs);
    var (hs', w) := S.DoSelectCertificate(hs, i);
    if w != Ok {
      Stays(hs, w);
    } else if hs'.tls13 {
      NewVersion(hs', w);
    } else {
      NothingBehind(hs, hs');
      Nothing(hs', 0);
      assert hs.trace + [] == hs.trace;
      Changes(hs, hs', w, []);
    }
  }

  lemma ServerSelectParameters(hs: Hs, i: In)
    requires Running(hs) && hs.state == Server(SelectParameters)
    ensures Kept(S.DoSelectParameters(hs, i))
  {
    hide Good, Flow, Between, Increasing, Settled;
    FlagsOf(hs);
    var (hs', w) := S.DoSelectParameters(hs, i);
    if w != Ok {
      Stays(hs, w);
    } else {
      NothingBehind(hs, hs');
      One(hs', Got(ClientHello), 0);
      Changes(hs, hs', w, [Got(ClientHello)]);
    }
  }

  lemma ServerSendServerHello(hs: Hs, i: In)
    requires Running(hs) && hs.state == Server(SendServerHello)
    ensures Kept(S.DoSendServerHello(hs, i))
  {
    hide Good, Flow, Between, Increasing, Settled;
    FlagsOf(hs);
    var (hs', w) := S.DoSendServerHello(hs, i);
    if w != Ok {
      Stays(hs, w);
    } else {
      AfterClientHello(hs, hs', 1);
      One(hs', Sent(ServerHello), 1);
      Changes(hs, hs', w, [Sent(ServerHello)]);
    }
  }

  lemma ServerSendServerCertificate(hs: Hs, i: In)
    requires Running(hs) && hs.state == Server(SendServerCertificate)
    ensures Kept(S.DoSendServerCertificate(hs, i))
  {
    hide Good, Flow, Between, Increasing, Settled;
    FlagsOf(hs);
    var (hs', w) := S.DoSendServerCertificate(hs, i);
    var certificate := If(hs.cipher.usesCert, Sent(Certificate));
    var status := If(hs.cipher.usesCert && hs.auth.statusExpected, Sent(CertificateStatus));
    if w == Error {
      ServerCertificateFlight(hs, hs.cipher.usesCert);
      Fails(hs, certificate + status, i.done, 2, 4);
    } else {
      AfterClientHello(hs, hs', 2);
      ServerCertificateFlight(hs', hs.cipher.usesCert);
      Changes(hs, hs', w, certificate + status);
    }
  }

  lemma ServerSendServerKeyExchange(hs: Hs, i: In)
    requires Running(hs) && hs.state == Server(SendServerKeyExchange)
    ensures Kept(S.DoSendServerKeyExchange(hs, i))
  {
    hide Good, Flow, Between, Increasing, Settled;
    FlagsOf(hs);
    var (hs', w) := S.DoSendServerKeyExchange(hs, i);
    if w != Ok {
      Stays(hs, w);
    } else if !hs.cipher.params {
      Skips(hs, hs', w, 4);
    } else {
      Takes(hs, hs', w, Sent(ServerKeyExchange), 4);
    }
  }

  lemma HelloDoneFlight(hs: Hs)
    requires hs.state.Server? && !hs.session
    ensures Between(hs, If(hs.auth.certRequest, Sent(CertificateRequest)) + [Sent(ServerHelloDone)], 5, 7)
  {
    hide Between;
    Maybe(hs, hs.auth.certRequest, Sent(CertificateRequest), 5);
    One(hs, Sent(ServerHelloDone), 6);
    Then(hs, If(hs.auth.certRequest, Sent(CertificateRequest)), [Sent(ServerHelloDone)], 5, 6, 7);
  }

  lemma ServerSendServerHelloDone(hs: Hs, i: In)
    requires Running(hs) && hs.state == Server(SendServerHelloDone)
    ensures Kept(S.DoSendServerHelloDone(hs, i))
  {
    hide Good, Flow, Between, Increasing, Settled, Rank, Possible, Must;
    FlagsOf(hs);
    var (hs', w) := S.DoSendServerHelloDone(hs, i);
    var es := If(hs.auth.certRequest, Sent(CertificateRequest)) + [Sent(ServerHelloDone)];
    HelloDoneFlight(hs);
    if w == Error { Fails(hs, es, i.done, 5, 7); } else { Moves(hs, hs', w, es); }
  }

  lemma ServerReadClientCertificate(hs: Hs, i: In)
    requires Running(hs) && hs.state == Server(ReadClientCertificate)
    ensures Kept(S.DoReadClientCertificate(hs, i))
  {
    hide Good, Flow, Between, Increasing, Settled;
    FlagsOf(hs);
    var (hs', w) := S.DoReadClientCertificate(hs, i);
    if w != Ok {
      Stays(hs, w);
    } else if !hs.auth.certRequest || i.msg == Some(ClientKeyExchange) {
      Skips(hs, hs', w, 7);
    } else {
      PeerCertificate(hs, i.certificate, [Got(Certificate)]);
      One(hs', Got(Certificate), 7);
      Changes(hs, hs', Ok, [Got(Certificate)]);
    }
  }

  lemma ServerVerifyClientCertificate(hs: Hs, i: In)
    requires Running(hs) && hs.state == Server(VerifyClientCertificate)
    ensures Kept(S.DoVerifyClientCertificate(hs, i))
  {
    hide Good, Flow;
    FlagsOf(hs);
    if !hs.auth.peerCert || i.callback.Success? {
      Skips(hs, ToS(hs, ReadClientKeyExchange), Ok, 8);
    } else {
      Stays(hs, S.DoVerifyClientCertificate(hs, i).1);
    }
  }

  lemma ServerReadClientKeyExchange(hs: Hs, i: In)
    requires Running(hs) && hs.state == Server(ReadClientKeyExchange)
    ensures Kept(S.DoReadClientKeyExchange(hs, i))
  {
    hide Good, Flow, S.Expect;
    FlagsOf(hs);
    if i.msg == Some(ClientKeyExchange) && i.callback.Retry? {
      Stays(hs, PrivateKeyOperation);
    } else {
      ServerExpects(hs, i, ClientKeyExchange, ReadClientCertificateVerify, 8);
    }
  }

  lemma ServerReadClientCertificateVerify(hs: Hs, i: In)
    requires Running(hs) && hs.state == Server(ReadClientCertificateVerify)
    ensures Kept(S.DoReadClientCertificateVerify(hs, i))
  {
    hide Good, Flow, S.Expect;
    FlagsOf(hs);
    if !hs.auth.peerCert {
      Skips(hs, ToS(hs, ServerState.ReadChangeCipherSpec), Ok, 9);
    } else {
      ServerExpects(hs, i, CertificateVerify, ServerState.ReadChangeCipherSpec, 9);
    }
  }

  lemma ServerReadChangeCipherSpec(hs: Hs, i: In)
    requires Running(hs) && hs.state == Server(ServerState.ReadChangeCipherSpec)
    ensures Kept(S.DoReadChangeCipherSpec(hs, i))
  {
    hide Good, Flow, Between, Increasing, Settled;
    FlagsOf(hs);
    var (hs', w) := S.DoReadChangeCipherSpec(hs, i);
    Skips(hs, hs', w, 10);
  }

  lemma ServerProcessChangeCipherSpec(hs: Hs, i: In)
    requires Running(hs) && hs.state == Server(ServerState.ProcessChangeCipherSpec)
    ensures Kept(S.DoProcessChangeCipherSpec(hs, i))
  {
    hide Good, Flow;
    FlagsOf(hs);
    if i.ok { Takes(hs, ToS(Log(hs, [ReadKeys]), ReadNextProto), Ok, ReadKeys, 11); } else { Stays(hs, Error); }
  }

  lemma ServerReadNextProto(hs: Hs, i: In)
    requires Running(hs) && hs.state == Server(ReadNextProto)
    ensures Kept(S.DoReadNextProto(hs, i))
  {
    hide Good, Flow, S.Expect;
    FlagsOf(hs);
    if !hs.ext.nextProto {
      Skips(hs, ToS(hs, ReadChannelId), Ok, 12);
    } else {
      ServerExpects(hs, i, NextProto, ReadChannelId, 12);
    }
  }

  lemma ServerReadChannelId(hs: Hs, i: In)
    requires Running(hs) && hs.state == Server(ReadChannelId)
    ensures Kept(S.DoReadChannelId(hs, i))
  {
    hide Good, Flow, S.Expect;
    FlagsOf(hs);
    if !hs.ext.channelId {
      Skips(hs, ToS(hs, ReadClientFinished), Ok, 13);
    } else {
      ServerExpects(hs, i, ChannelId, ReadClientFinished, 13);
    }
  }

  lemma ServerReadClientFinished(hs: Hs, i: In)
    requires Running(hs) && hs.state == Server(ReadClientFinished)
    ensures Kept(S.DoReadClientFinished(hs, i))
  {
    hide Good, Flow, Between, Increasing, Settled;
    FlagsOf(hs);
    if i.msg == Some(Finished) && !i.ok {
      One(hs, Got(Finished), 14);
      Fails(hs, [Got(Finished)], i.done, 14, 15);
    } else if !hs.session {
      ServerExpects(hs, i, Finished, SendServerFinished, 14);
    } else if i.msg == Some(Finished) {
      ResumedClientFinished(hs);
      Moves(hs, ToS(Log(hs, [Got(Finished)]), FinishServerHandshake), Ok, [Got(Finished)]);
    } else {
      Stays(hs, Missing(i));
    }
  }

  lemma ServerSendServerFinished(hs: Hs, i: In)
    requires Running(hs) && hs.state == Server(SendServerFinished)
    ensures Kept(S.DoSendServerFinished(hs, i))
  {
    hide Good, Flow, Between, Increasing, Settled;
    FlagsOf(hs);
    var (hs', w) := S.DoSendServerFinished(hs, i);
    var es := If(hs.ext.ticketExpected, Sent(NewSessionTicket)) + [SentCcs, WriteKeys, Sent(Finished)];
    var p := Position(hs, Ok);
    ServerFinishedFlight(hs);
    if w == Error {
      Fails(hs, es, i.done, p, p + 4);
    } else {
      if hs.session { BetweenFlights(hs); Then(hs, es, [], 2, 6, 10); assert es + [] == es; }
      Moves(hs, hs', w, es);
    }
  }

  lemma ServerFinishServerHandshake(hs: Hs, i: In)
    requires Running(hs) && hs.state == Server(FinishServerHandshake)
    ensures Kept(S.DoFinishServerHandshake(hs, i))
  {
    hide Good, Flow;
    FlagsOf(hs);
    Takes(hs, ToS(Log(hs, [Complete]), ServerState.Done), Ok, Complete, 19);
  }

  lemma AfterClientHello(hs: Hs, hs': Hs, p: nat)
    requires hs.state.Server? && hs'.state.Server? && p <= 2 && hs'.session == hs.session
    requires var kept := WithParams(Keeping(hs, hs'.ext.channelId), hs'.cipher.params);
             hs' == kept.(state := hs'.state, trace := hs'.trace)
    ensures Settled(hs, hs', p)
  {
    SameRank(hs, hs');
    assert forall r: nat :: r < 2 ==> Must(hs', r) == Must(hs, r);
  }

  lemma ServerCertificateFlight(hs: Hs, usesCert: bool)
    requires hs.state.Server? && !hs.session && hs.cipher.usesCert == usesCert
    ensures Between(hs, If(usesCert, Sent(Certificate))
            + If(usesCert && hs.auth.statusExpected, Sent(CertificateStatus)), 2, 4)
  {
    hide Between;
    Maybe(hs, usesCert, Sent(Certificate), 2);
    Maybe(hs, usesCert && hs.auth.statusExpected, Sent(CertificateStatus), 3);
    Then(hs, If(usesCert, Sent(Certificate)), If(usesCert && hs.auth.statusExpected, Sent(CertificateStatus)), 2, 3, 4);
  }

  lemma PeerCertificate(hs: Hs, peerCert: bool, es: seq<Event>)
    requires hs.state.Server? && !hs.auth.peerCert
    ensures Settled(hs, ToS(Log(WithPeer(hs, peerCert), es), VerifyClientCertificate), 7)
  {
    var hs' := ToS(Log(WithPeer(hs, peerCert), es), VerifyClientCertificate);
    SameRank(hs, hs');
    assert forall r: nat :: r < 7 ==> Must(hs', r) == Must(hs, r);
  }

  lemma ServerFinishedFlight(hs: Hs)
    requires hs.state.Server?
    ensures var p := if hs.session then 2 else 15;
            var ticket := If(hs.ext.ticketExpected, Sent(NewSessionTicket));
            Between(hs, ticket + [SentCcs, WriteKeys, Sent(Finished)], p, p + 4)
  {
    hide Between;
    var p := if hs.session then 2 else 15;
    var ticket := If(hs.ext.ticketExpected, Sent(NewSessionTicket));
    Maybe(hs, hs.ext.ticketExpected, Sent(NewSessionTicket), p);
    One(hs, SentCcs, p + 1);
    One(hs, WriteKeys, p + 2);
    One(hs, Sent(Finished), p + 3);
    Then(hs, ticket, [SentCcs], p, p + 1, p + 2);
    Then(hs, ticket + [SentCcs], [WriteKeys], p, p + 2, p + 3);
    Then(hs, ticket + [SentCcs] + [WriteKeys], [Sent(Finished)], p, p + 3, p + 4);
    assert ticket + [SentCcs] + [WriteKeys] + [Sent(Finished)] == ticket + [SentCcs, WriteKeys, Sent(Finished)];
  }

  lemma BetweenFlights(hs: Hs)
    requires hs.state.Server? && hs.session
    ensures Between(hs, [], 6, 10)
  {
    assert forall r: nat :: 6 <= r < 10 ==> Must(hs, r).None?;
  }

  lemma ResumedClientFinished(hs: Hs)
    requires hs.state.Server? && hs.session
    ensures Between(hs, [Got(Finished)], 14, 19)
  {
    One(hs, Got(Finished), 14);
    assert forall r: nat :: 15 <= r < 19 ==> Must(hs, r).None?;
  }
}
