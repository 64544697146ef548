/** The client's handshake states (handshake_client.cc:413-1817): each do_ function
    as a function from the handshake before to the handshake after and what it then
    waits for. */
module HandshakeClient {
  import opened Wrappers
  import opened HandshakeTypes

  /** sameSession says that the configured session may still be offered. */
  function DoStartConnect(hs: Hs, i: In): (Hs, Wait) {
    if !i.ok then (hs, Error)
    else (ToC(Log(Offering(hs, hs.session && i.sameSession, i.early), [Sent(ClientHello)]), EnterEarlyData), Flush)
  }

  function DoEnterEarlyData(hs: Hs, i: In): (Hs, Wait) {
    if hs.setup.dtls then (ToC(hs, ReadHelloVerifyRequest), Ok)
    else if !hs.setup.earlyOffered then (ToC(hs, ClientState.ReadServerHello), Ok)
    else if !i.ok then Partly(hs, [EarlyCcs, EarlyKeys], i.done)
    else (ToC(Log(hs, [EarlyCcs, EarlyKeys]), ClientState.ReadServerHello), EarlyReturn)
  }

  function DoReadHelloVerifyRequest(hs: Hs, i: In): (Hs, Wait) {
    match i.msg
    case None => (hs, ReadMessage)
    case Some(m) =>
      if m != HelloVerifyRequest then (ToC(hs, ClientState.ReadServerHello), Ok)
      else if !i.ok then Partly(hs, [Got(HelloVerifyRequest), SecondHello], i.done)
      else (ToC(Log(hs, [Got(HelloVerifyRequest), SecondHello]), ClientState.ReadServerHello), Flush)
  }

  /** A session that the server does not take up is dropped here; a server that
      speaks TLS 1.2 or less must not have been sent early data. */
  function DoReadServerHello(hs: Hs, i: In): (Hs, Wait) {
    match i.msg
    case None => (hs, Wait.ReadServerHello)
    case Some(m) =>
      if i.tls13 && i.ok then (ToC(hs.(tls13 := true), ClientState.Tls13), Ok)
      else if hs.setup.earlyOffered then (hs, Error)
      else if m != ServerHello || !i.ok then (hs, Error)
      else
        var hs' := Log(Negotiated(hs, i), [Got(ServerHello)]);
        (ToC(hs', if hs'.session then ReadSessionTicket else ReadServerCertificate), Ok)
  }

  /** What the ServerHello settles. */
  function Negotiated(hs: Hs, i: In): Hs {
    hs.(session := !hs.setup.renegotiation && hs.session && i.sameSession,
        cipher := Suite(i.ssl3, i.usesCert, i.requiresSke, false),
        auth := Auth(false, false, i.status),
        ext := Extensions(i.ticket, i.nextProto, i.channelId))
  }

  function DoTls13(hs: Hs, i: In): (Hs, Wait) {
    if i.wait13 == Ok then (ToC(hs, FinishClientHandshake), Ok) else (hs, i.wait13)
  }

  /** A message that must come next. */
  function Expect(hs: Hs, i: In, m: Msg, next: ClientState): (Hs, Wait) {
    if i.msg == Some(m) && i.ok then (ToC(Log(hs, [Got(m)]), next), Ok) else (hs, Missing(i))
  }

  function DoReadServerCertificate(hs: Hs, i: In): (Hs, Wait) {
    if !hs.cipher.usesCert then (ToC(hs, ReadCertificateStatus), Ok)
        else Expect(hs, i, Certificate, ReadCertificateStatus)
  }

  /** The server may change its mind about the status. */
  function DoReadCertificateStatus(hs: Hs, i: In): (Hs, Wait) {
    if !hs.auth.statusExpected || (i.msg.Some? && i.msg.value != CertificateStatus)
        then (ToC(hs, VerifyServerCertificate), Ok)
    else Expect(hs, i, CertificateStatus, VerifyServerCertificate)
  }

  function DoVerifyServerCertificate(hs: Hs, i: In): (Hs, Wait) {
    if !hs.cipher.usesCert then (ToC(hs, ReadServerKeyExchange), Ok)
    else match i.callback
      case Success => (ToC(hs, ReadServerKeyExchange), Ok)
      case Failure => (hs, Error)
      case Retry => (hs, CertificateVerifyPending)
  }

  function DoReadServerKeyExchange(hs: Hs, i: In): (Hs, Wait) {
    if i.msg.Some? && i.msg.value != ServerKeyExchange then
      if hs.cipher.requiresSke then (hs, Error) else (ToC(hs, ReadCertificateRequest), Ok)
    else Expect(hs, i, ServerKeyExchange, ReadCertificateRequest)
  }

  function DoReadCertificateRequest(hs: Hs, i: In): (Hs, Wait) {
    if !hs.cipher.usesCert || (i.msg.Some? && i.msg.value == ServerHelloDone) then (ToC(hs, ReadServerHelloDone), Ok)
    else if i.msg == Some(CertificateRequest) && i.ok then
      (ToC(Log(Asking(hs, true), [Got(CertificateRequest)]), ReadServerHelloDone), Ok)
    else (hs, Missing(i))
  }

  function DoReadServerHelloDone(hs: Hs, i: In): (Hs, Wait) {
    Expect(hs, i, ServerHelloDone, SendClientCertificate)
  }

  /** callback is cert_cb's answer, Success if there is none; SSL 3.0 has an alert
      in place of an empty Certificate. */
  function DoSendClientCertificate(hs: Hs, i: In): (Hs, Wait) {
    if !hs.auth.certRequest then (ToC(hs, SendClientKeyExchange), Ok)
    else match i.callback
      case Failure => (hs, Error)
      case Retry => (hs, X509Lookup)
      case Success =>
        if !i.ok then (hs, Error)
        else
          var e := if !i.certificate && hs.cipher.ssl3 then NoCertificateAlert else Sent(Certificate);
          (ToC(Log(hs, [e]), SendClientKeyExchange), Ok)
  }

  function DoSendClientKeyExchange(hs: Hs, i: In): (Hs, Wait) {
    if !i.ok then Partly(hs, [Sent(ClientKeyExchange)], i.done)
    else (ToC(Log(hs, [Sent(ClientKeyExchange)]), SendClientCertificateVerify), Ok)
  }

  function DoSendClientCertificateVerify(hs: Hs, i: In): (Hs, Wait) {
    if !hs.auth.certRequest || !i.certificate then (ToC(hs, SendClientFinished), Ok)
    else match i.callback
      case Failure => (hs, Error)
      case Retry => (hs, PrivateKeyOperation)
      case Success =>
        if !i.ok then (hs, Error) else (ToC(Log(hs, [Sent(CertificateVerify)]), SendClientFinished), Ok)
  }

  /** The Channel ID is resolved before anything is sent. */
  function DoSendClientFinished(hs: Hs, i: In): (Hs, Wait) {
    if hs.ext.channelId && i.callback.Failure? then (hs, Error)
    else if hs.ext.channelId && i.callback.Retry? then (hs, ChannelIdLookup)
    else
      var es := [SentCcs, WriteKeys] + If(hs.ext.nextProto, Sent(NextProto)) + If(hs.ext.channelId, Sent(ChannelId))
          + [Sent(Finished)];
      if !i.ok then Partly(hs, es, i.done) else (ToC(Log(hs, es), FinishFlight), Flush)
  }

  function DoFinishFlight(hs: Hs, i: In): (Hs, Wait) {
    if hs.session then (ToC(hs, FinishClientHandshake), Ok)
    else if !i.ok then (hs, Error)
    else
      var falseStart := i.falseStart && !hs.setup.dtls && !hs.setup.renegotiation;
      (ToC(hs, ReadSessionTicket), if falseStart then EarlyReturn else Ok)
  }

  /** The server may send an empty ticket after all. */
  function DoReadSessionTicket(hs: Hs, i: In): (Hs, Wait) {
    if !hs.ext.ticketExpected then (ToC(hs, ClientState.ProcessChangeCipherSpec), Wait.ReadChangeCipherSpec)
    else if i.msg == Some(NewSessionTicket) && i.ok then
      (ToC(Log(Expecting(hs, !i.emptyTicket), [Got(NewSessionTicket)]), ClientState.ProcessChangeCipherSpec),
       Wait.ReadChangeCipherSpec)
    else (hs, Missing(i))
  }

  function DoProcessChangeCipherSpec(hs: Hs, i: In): (Hs, Wait) {
    if !i.ok then (hs, Error) else (ToC(Log(hs, [ReadKeys]), ReadServerFinished), Ok)
  }

  function DoReadServerFinished(hs: Hs, i: In): (Hs, Wait) {
    if hs.session then Expect(hs, i, Finished, SendClientFinished) else Expect(hs, i, Finished, FinishClientHandshake)
  }

  function DoFinishClientHandshake(hs: Hs, i: In): (Hs, Wait) {
    if !i.ok then (hs, Error) else (ToC(Log(hs, [Complete]), ClientState.Done), Ok)
  }

  /** The switch in ssl_client_handshake. */
  function Do(hs: Hs, i: In): (Hs, Wait)
    requires hs.state.Client?
  {
    match hs.state.c
    case StartConnect => DoStartConnect(hs, i)
    case EnterEarlyData => DoEnterEarlyData(hs, i)
    case ReadHelloVerifyRequest => DoReadHelloVerifyRequest(hs, i)
    case ReadServerHello => DoReadServerHello(hs, i)
    case Tls13 => DoTls13(hs, i)
    case ReadServerCertificate => DoReadServerCertificate(hs, i)
    case ReadCertificateStatus => DoReadCertificateStatus(hs, i)
    case VerifyServerCertificate => DoVerifyServerCertificate(hs, i)
    case ReadServerKeyExchange => DoReadServerKeyExchange(hs, i)
    case ReadCertificateRequest => DoReadCertificateRequest(hs, i)
    case ReadServerHelloDone => DoReadServerHelloDone(hs, i)
    case SendClientCertificate => DoSendClientCertificate(hs, i)
    case SendClientKeyExchange => DoSendClientKeyExchange(hs, i)
    case SendClientCertificateVerify => DoSendClientCertificateVerify(hs, i)
    case SendClientFinished => DoSendClientFinished(hs, i)
    case FinishFlight => DoFinishFlight(hs, i)
    case ReadSessionTicket => DoReadSessionTicket(hs, i)
    case ProcessChangeCipherSpec => DoProcessChangeCipherSpec(hs, i)
    case ReadServerFinished => DoReadServerFinished(hs, i)
    case FinishClientHandshake => DoFinishClientHandshake(hs, i)
    case Done => (hs, Ok)
  }

  // A few states at a time: how far each one's function brings the handshake.

  lemma HellosAdvance(hs: Hs, i: In)
    requires hs.state.Client? && ClientProgress(hs.state.c, false) < 5
    ensures Advances(hs, Do(hs, i))
  {
    hide DoReadServerCertificate, DoReadCertificateStatus, DoVerifyServerCertificate, DoReadServerKeyExchange,
         DoReadCertificateRequest, DoReadServerHelloDone, DoSendClientCertificate, DoSendClientKeyExchange,
         DoSendClientCertificateVerify, DoSendClientFinished, DoFinishFlight, DoReadSessionTicket,
         DoProcessChangeCipherSpec, DoReadServerFinished, DoFinishClientHandshake;
  }

  lemma CertificateAdvances(hs: Hs, i: In)
    requires hs.state.Client? && 5 <= ClientProgress(hs.state.c, false) < 8
    ensures Advances(hs, Do(hs, i))
  {
    hide DoStartConnect, DoEnterEarlyData, DoReadHelloVerifyRequest, DoReadServerHello, DoTls13,
         DoReadServerKeyExchange, DoReadCertificateRequest, DoReadServerHelloDone, DoSendClientCertificate,
         DoSendClientKeyExchange, DoSendClientCertificateVerify, DoSendClientFinished, DoFinishFlight,
         DoReadSessionTicket, DoProcessChangeCipherSpec, DoReadServerFinished, DoFinishClientHandshake;
  }

  lemma RequestAdvances(hs: Hs, i: In)
    requires hs.state.Client? && 8 <= ClientProgress(hs.state.c, false) < 11
    ensures Advances(hs, Do(hs, i))
  {
    hide DoStartConnect, DoEnterEarlyData, DoReadHelloVerifyRequest, DoReadServerHello, DoTls13,
         DoReadServerCertificate, DoReadCertificateStatus, DoVerifyServerCertificate, DoSendClientCertificate,
         DoSendClientKeyExchange, DoSendClientCertificateVerify, DoSendClientFinished, DoFinishFlight,
         DoReadSessionTicket, DoProcessChangeCipherSpec, DoReadServerFinished, DoFinishClientHandshake;
  }

  lemma KeyExchangeAdvances(hs: Hs, i: In)
    requires hs.state.Client? && 11 <= ClientProgress(hs.state.c, false) < 13
    ensures Advances(hs, Do(hs, i))
  {
    hide DoStartConnect, DoEnterEarlyData, DoReadHelloVerifyRequest, DoReadServerHello, DoTls13,
         DoReadServerCertificate, DoReadCertificateStatus, DoVerifyServerCertificate, DoReadServerKeyExchange,
         DoReadCertificateRequest, DoReadServerHelloDone, DoSendClientCertificateVerify, DoSendClientFinished,
         DoFinishFlight, DoReadSessionTicket, DoProcessChangeCipherSpec, DoReadServerFinished,
         DoFinishClientHandshake;
  }

  lemma FlightAdvances(hs: Hs, i: In)
    requires hs.state.Client? && 13 <= ClientProgress(hs.state.c, false) < 15
    ensures Advances(hs, Do(hs, i))
  {
    hide DoStartConnect, DoEnterEarlyData, DoReadHelloVerifyRequest, DoReadServerHello, DoTls13,
         DoReadServerCertificate, DoReadCertificateStatus, DoVerifyServerCertificate, DoReadServerKeyExchange,
         DoReadCertificateRequest, DoReadServerHelloDone, DoSendClientCertificate, DoSendClientKeyExchange,
         DoFinishFlight, DoReadSessionTicket, DoProcessChangeCipherSpec, DoReadServerFinished,
         DoFinishClientHandshake;
  }

  lemma TicketAdvances(hs: Hs, i: In)
    requires hs.state.Client? && 15 <= ClientProgress(hs.state.c, false) < 17
    ensures Advances(hs, Do(hs, i))
  {
    hide DoStartConnect, DoEnterEarlyData, DoReadHelloVerifyRequest, DoReadServerHello, DoTls13,
         DoReadServerCertificate, DoReadCertificateStatus, DoVerifyServerCertificate, DoReadServerKeyExchange,
         DoReadCertificateRequest, DoReadServerHelloDone, DoSendClientCertificate, DoSendClientKeyExchange,
         DoSendClientCertificateVerify, DoSendClientFinished, DoProcessChangeCipherSpec, DoReadServerFinished,
         DoFinishClientHandshake;
  }

  lemma FinishAdvances(hs: Hs, i: In)
    requires hs.state.Client? && 17 <= ClientProgress(hs.state.c, false) < LAST
    ensures Advances(hs, Do(hs, i))
  {
    hide DoStartConnect, DoEnterEarlyData, DoReadHelloVerifyRequest, DoReadServerHello, DoTls13,
         DoReadServerCertificate, DoReadCertificateStatus, DoVerifyServerCertificate, DoReadServerKeyExchange,
         DoReadCertificateRequest, DoReadServerHelloDone, DoSendClientCertificate, DoSendClientKeyExchange,
         DoSendClientCertificateVerify, DoSendClientFinished, DoFinishFlight, DoReadSessionTicket;
  }

  /** Every state's function goes forward, or stays and waits or fails. */
  lemma DoAdvances(hs: Hs, i: In)
    requires hs.state.Client? && !hs.state.c.Done?
    ensures Advances(hs, Do(hs, i))
  {
    hide Do, Advances;
    var p := ClientProgress(hs.state.c, false);
    if p < 5 {
      HellosAdvance(hs, i);
    } else if p < 8 {
      CertificateAdvances(hs, i);
    } else if p < 11 {
      RequestAdvances(hs, i);
    } else if p < 13 {
      KeyExchangeAdvances(hs, i);
    } else if p < 15 {
      FlightAdvances(hs, i);
    } else if p < 17 {
      TicketAdvances(hs, i);
    } else {
      FinishAdvances(hs, i);
    }
  }
}
