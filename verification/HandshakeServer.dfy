/** The server's handshake states (handshake_server.cc:426-1621), like the client's. */
module HandshakeServer {
  import opened Wrappers
  import opened HandshakeTypes

  function DoStartAccept(hs: Hs, i: In): (Hs, Wait) {
    (ToS(hs, ReadClientHello), Ok)
  }

  /** The ClientHello is looked at here and taken only in DoSelectParameters. */
  function DoReadClientHello(hs: Hs, i: In): (Hs, Wait) {
    if i.msg.None? then (hs, ReadMessage)
    else if i.msg.value != ClientHello then (hs, Error)
    else if i.handoff then (hs, Handoff)
    else match i.callback
      case Retry => (hs, CertificateSelectionPending)
      case Failure => (hs, Error)
      case Success =>
        if !i.ok then (hs, Error)
        else (ToS(Greeted(hs, hs.tls13 || i.tls13, i), SelectCertificate), Ok)
  }

  function DoSelectCertificate(hs: Hs, i: In): (Hs, Wait) {
    if i.msg.None? then (hs, ReadMessage)
    else match i.callback
      case Failure => (hs, Error)
      case Retry => (hs, X509Lookup)
      case Success =>
        if !i.ok then (hs, Error)
        else if hs.tls13 then (ToS(hs, ServerState.Tls13), Ok)
        else (ToS(Choosing(hs, i), SelectParameters), Ok)
  }

  function DoTls13(hs: Hs, i: In): (Hs, Wait) {
    if i.wait13 == Ok then (ToS(hs, FinishServerHandshake), Ok) else (hs, i.wait13)
  }

  /** lookup is what ssl_get_prev_session waits for, if it does; sameSession, that it
      finds a session that can be resumed; ticket, that one is to be sent. */
  function DoSelectParameters(hs: Hs, i: In): (Hs, Wait) {
    if i.msg.None? then (hs, ReadMessage)
    else if i.lookup.Some? then
      (hs, if i.lookup.value in {PendingSession, PendingTicket} then i.lookup.value else Error)
    else if !i.ok then (hs, Error)
    else
      var certRequest := !i.sameSession && hs.cipher.usesCert && i.askCert;
      (ToS(Log(Resuming(hs, i.sameSession, i.ticket, certRequest), [Got(ClientHello)]),
           SendServerHello), Ok)
  }

  function DoSendServerHello(hs: Hs, i: In): (Hs, Wait) {
    if !i.ok then (hs, Error)
    else (ToS(Log(Keeping(hs, hs.ext.channelId && !i.dropChannelId), [Sent(ServerHello)]),
              if hs.session then SendServerFinished else SendServerCertificate), Ok)
  }

  /** params says that the cipher requires a ServerKeyExchange, or is a PSK cipher
      and there is a hint to send. */
  function DoSendServerCertificate(hs: Hs, i: In): (Hs, Wait) {
    var es := If(hs.cipher.usesCert, Sent(Certificate))
        + If(hs.cipher.usesCert && hs.auth.statusExpected, Sent(CertificateStatus));
    if !i.ok then Partly(hs, es, i.done)
    else (ToS(Log(WithParams(hs, hs.cipher.requiresSke || i.params), es), SendServerKeyExchange), Ok)
  }

  function DoSendServerKeyExchange(hs: Hs, i: In): (Hs, Wait) {
    if !hs.cipher.params then (ToS(hs, SendServerHelloDone), Ok)
    else if hs.cipher.usesCert && i.callback.Retry? then (hs, PrivateKeyOperation)
    else if !i.ok || (hs.cipher.usesCert && i.callback.Failure?) then (hs, Error)
    else (ToS(Log(hs, [Sent(ServerKeyExchange)]), SendServerHelloDone), Ok)
  }

  function DoSendServerHelloDone(hs: Hs, i: In): (Hs, Wait) {
    var es := If(hs.auth.certRequest, Sent(CertificateRequest)) + [Sent(ServerHelloDone)];
    if !i.ok then Partly(hs, es, i.done) else (ToS(Log(hs, es), ReadClientCertificate), Flush)
  }

  /** A message that must come next. */
  function Expect(hs: Hs, i: In, m: Msg, next: ServerState): (Hs, Wait) {
    if i.msg == Some(m) && i.ok then (ToS(Log(hs, [Got(m)]), next), Ok) else (hs, Missing(i))
  }

  /** In SSL 3.0 a client without a certificate leaves the message out; certificate
      says that the chain is not empty. */
  function DoReadClientCertificate(hs: Hs, i: In): (Hs, Wait) {
    if !hs.auth.certRequest then (ToS(hs, VerifyClientCertificate), Ok)
    else if i.msg == Some(ClientKeyExchange) && hs.cipher.ssl3 then
      if !i.ok then (hs, Error) else (ToS(hs, VerifyClientCertificate), Ok)
    else if i.msg == Some(Certificate) && i.ok && (i.certificate || !hs.cipher.ssl3) then
      (ToS(Log(WithPeer(hs, i.certificate), [Got(Certificate)]), VerifyClientCertificate), Ok)
    else (hs, Missing(i))
  }

  function DoVerifyClientCertificate(hs: Hs, i: In): (Hs, Wait) {
    if !hs.auth.peerCert then (ToS(hs, ReadClientKeyExchange), Ok)
    else match i.callback
      case Success => (ToS(hs, ReadClientKeyExchange), Ok)
      case Failure => (hs, Error)
      case Retry => (hs, CertificateVerifyPending)
  }

  function DoReadClientKeyExchange(hs: Hs, i: In): (Hs, Wait) {
    if i.msg == Some(ClientKeyExchange) && i.callback.Retry? then (hs, PrivateKeyOperation)
    else Expect(hs, i, ClientKeyExchange, ReadClientCertificateVerify)
  }

  /** Required exactly if the client sent a certificate. */
  function DoReadClientCertificateVerify(hs: Hs, i: In): (Hs, Wait) {
    if !hs.auth.peerCert then (ToS(hs, ServerState.ReadChangeCipherSpec), Ok)
    else Expect(hs, i, CertificateVerify, ServerState.ReadChangeCipherSpec)
  }

  function DoReadChangeCipherSpec(hs: Hs, i: In): (Hs, Wait) {
    (ToS(hs, ServerState.ProcessChangeCipherSpec), Wait.ReadChangeCipherSpec)
  }

  function DoProcessChangeCipherSpec(hs: Hs, i: In): (Hs, Wait) {
    if !i.ok then (hs, Error) else (ToS(Log(hs, [ReadKeys]), ReadNextProto), Ok)
  }

  function DoReadNextProto(hs: Hs, i: In): (Hs, Wait) {
    if !hs.ext.nextProto then (ToS(hs, ReadChannelId), Ok) else Expect(hs, i, NextProto, ReadChannelId)
  }

  function DoReadChannelId(hs: Hs, i: In): (Hs, Wait) {
    if !hs.ext.channelId then (ToS(hs, ReadClientFinished), Ok) else Expect(hs, i, ChannelId, ReadClientFinished)
  }

  function DoReadClientFinished(hs: Hs, i: In): (Hs, Wait) {
    if i.msg == Some(Finished) && !i.ok then Partly(hs, [Got(Finished)], i.done)
    else if hs.session then Expect(hs, i, Finished, FinishServerHandshake)
    else Expect(hs, i, Finished, SendServerFinished)
  }

  function DoSendServerFinished(hs: Hs, i: In): (Hs, Wait) {
    var es := If(hs.ext.ticketExpected, Sent(NewSessionTicket)) + [SentCcs, WriteKeys, Sent(Finished)];
    if !i.ok then Partly(hs, es, i.done)
    else (ToS(Log(hs, es), if hs.session then ServerState.ReadChangeCipherSpec else FinishServerHandshake), Flush)
  }

  function DoFinishServerHandshake(hs: Hs, i: In): (Hs, Wait) {
    (ToS(Log(hs, [Complete]), ServerState.Done), Ok)
  }

  /** The switch in ssl_server_handshake. */
  function Do(hs: Hs, i: In): (Hs, Wait)
    requires hs.state.Server?
  {
    match hs.state.s
    case StartAccept => DoStartAccept(hs, i)
    case ReadClientHello => DoReadClientHello(hs, i)
    case SelectCertificate => DoSelectCertificate(hs, i)
    case Tls13 => DoTls13(hs, i)
    case SelectParameters => DoSelectParameters(hs, i)
    case SendServerHello => DoSendServerHello(hs, i)
    case SendServerCertificate => DoSendServerCertificate(hs, i)
    case SendServerKeyExchange => DoSendServerKeyExchange(hs, i)
    case SendServerHelloDone => DoSendServerHelloDone(hs, i)
    case ReadClientCertificate => DoReadClientCertificate(hs, i)
    case VerifyClientCertificate => DoVerifyClientCertificate(hs, i)
    case ReadClientKeyExchange => DoReadClientKeyExchange(hs, i)
    case ReadClientCertificateVerify => DoReadClientCertificateVerify(hs, i)
    case ReadChangeCipherSpec => DoReadChangeCipherSpec(hs, i)
    case ProcessChangeCipherSpec => DoProcessChangeCipherSpec(hs, i)
    case ReadNextProto => DoReadNextProto(hs, i)
    case ReadChannelId => DoReadChannelId(hs, i)
    case ReadClientFinished => DoReadClientFinished(hs, i)
    case SendServerFinished => DoSendServerFinished(hs, i)
    case FinishServerHandshake => DoFinishServerHandshake(hs, i)
    case Done => (hs, Ok)
  }

  // A few states at a time: how far each one's function brings the handshake.

  lemma HelloAdvances(hs: Hs, i: In)
    requires hs.state.Server? && ServerProgress(hs.state.s, false) < 3
    ensures Advances(hs, Do(hs, i))
  {
    hide DoTls13, DoSelectParameters, DoSendServerHello, DoSendServerCertificate, DoSendServerKeyExchange,
         DoSendServerHelloDone, DoReadClientCertificate, DoVerifyClientCertificate, DoReadClientKeyExchange,
         DoReadClientCertificateVerify, DoReadChangeCipherSpec, DoProcessChangeCipherSpec, DoReadNextProto,
         DoReadChannelId, DoReadClientFinished, DoSendServerFinished, DoFinishServerHandshake;
  }

  lemma ParametersAdvance(hs: Hs, i: In)
    requires hs.state.Server? && 3 <= ServerProgress(hs.state.s, false) < 5
    ensures Advances(hs, Do(hs, i))
  {
    hide DoStartAccept, DoReadClientHello, DoSelectCertificate, DoSendServerHello, DoSendServerCertificate,
         DoSendServerKeyExchange, DoSendServerHelloDone, DoReadClientCertificate, DoVerifyClientCertificate,
         DoReadClientKeyExchange, DoReadClientCertificateVerify, DoReadChangeCipherSpec,
         DoProcessChangeCipherSpec, DoReadNextProto, DoReadChannelId, DoReadClientFinished,
         DoSendServerFinished, DoFinishServerHandshake;
  }

  lemma FlightAdvances(hs: Hs, i: In)
    requires hs.state.Server? && 5 <= ServerProgress(hs.state.s, false) < 10
    ensures Advances(hs, Do(hs, i))
  {
    hide DoStartAccept, DoReadClientHello, DoSelectCertificate, DoTls13, DoSelectParameters,
         DoVerifyClientCertificate, DoReadClientKeyExchange, DoReadClientCertificateVerify,
         DoReadChangeCipherSpec, DoProcessChangeCipherSpec, DoReadNextProto, DoReadChannelId,
         DoReadClientFinished, DoSendServerFinished, DoFinishServerHandshake;
  }

  lemma KeyExchangeAdvances(hs: Hs, i: In)
    requires hs.state.Server? && 10 <= ServerProgress(hs.state.s, false) < 15
    ensures Advances(hs, Do(hs, i))
  {
    hide DoStartAccept, DoReadClientHello, DoSelectCertificate, DoTls13, DoSelectParameters,
         DoSendServerHello, DoSendServerCertificate, DoSendServerKeyExchange, DoSendServerHelloDone,
         DoReadClientCertificate, DoReadNextProto, DoReadChannelId, DoReadClientFinished,
         DoSendServerFinished, DoFinishServerHandshake;
  }

  lemma MessagesAdvance(hs: Hs, i: In)
    requires hs.state.Server? && 15 <= ServerProgress(hs.state.s, false) < 18
    ensures Advances(hs, Do(hs, i))
  {
    hide DoStartAccept, DoReadClientHello, DoSelectCertificate, DoTls13, DoSelectParameters,
         DoSendServerHello, DoSendServerCertificate, DoSendServerKeyExchange, DoSendServerHelloDone,
         DoReadClientCertificate, DoVerifyClientCertificate, DoReadClientKeyExchange,
         DoReadClientCertificateVerify, DoReadChangeCipherSpec, DoProcessChangeCipherSpec,
         DoSendServerFinished, DoFinishServerHandshake;
  }

  lemma FinishAdvances(hs: Hs, i: In)
    requires hs.state.Server? && 18 <= ServerProgress(hs.state.s, false) < LAST
    ensures Advances(hs, Do(hs, i))
  {
    hide DoStartAccept, DoReadClientHello, DoSelectCertificate, DoTls13, DoSelectParameters,
         DoSendServerHello, DoSendServerCertificate, DoSendServerKeyExchange, DoSendServerHelloDone,
         DoReadClientCertificate, DoVerifyClientCertificate, DoReadClientKeyExchange,
         DoReadClientCertificateVerify, DoReadChangeCipherSpec, DoProcessChangeCipherSpec, DoReadNextProto,
         DoReadChannelId, DoReadClientFinished;
  }

  /** Every state's function goes forward, or stays and waits or fails. */
  lemma DoAdvances(hs: Hs, i: In)
    requires hs.state.Server? && !hs.state.s.Done?
    ensures Advances(hs, Do(hs, i))
  {
    hide Do, Advances;
    var p := ServerProgress(hs.state.s, false);
    if p < 3 {
      HelloAdvances(hs, i);
    } else if p < 5 {
      ParametersAdvance(hs, i);
    } else if p < 10 {
      FlightAdvances(hs, i);
    } else if p < 15 {
      KeyExchangeAdvances(hs, i);
    } else if p < 18 {
      MessagesAdvance(hs, i);
    } else {
      FinishAdvances(hs, i);
    }
  }
}
