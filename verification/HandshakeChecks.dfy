/** What the verdicts of a call's environment decide: which messages are taken,
    when a handshake ends in an error, and that one goes on to its end if nothing
    is wrong. Told of the steps of a run, whatever function of a state is behind
    them (handshake_client.cc:413-1817, handshake_server.cc:426-1621). */
module HandshakeChecks {
  import opened Wrappers
  import opened HandshakeTypes
  import C = HandshakeClient
  import S = HandshakeServer

  /** The message that a state reads. */
  function Reads(s: State): Option<Msg> {
    match s
    case Client(ReadHelloVerifyRequest) => Some(HelloVerifyRequest)
    case Client(ReadServerHello) => Some(ServerHello)
    case Client(ReadServerCertificate) => Some(Certificate)
    case Client(ReadCertificateStatus) => Some(CertificateStatus)
    case Client(ReadServerKeyExchange) => Some(ServerKeyExchange)
    case Client(ReadCertificateRequest) => Some(CertificateRequest)
    case Client(ReadServerHelloDone) => Some(ServerHelloDone)
    case Client(ReadSessionTicket) => Some(NewSessionTicket)
    case Client(ReadServerFinished) => Some(Finished)
    case Server(ReadClientHello) => Some(ClientHello)
    case Server(SelectCertificate) => Some(ClientHello)
    case Server(SelectParameters) => Some(ClientHello)
    case Server(ReadClientCertificate) => Some(Certificate)
    case Server(ReadClientKeyExchange) => Some(ClientKeyExchange)
    case Server(ReadClientCertificateVerify) => Some(CertificateVerify)
    case Server(ReadNextProto) => Some(NextProto)
    case Server(ReadChannelId) => Some(ChannelId)
    case Server(ReadClientFinished) => Some(Finished)
    case _ => None
  }

  /** The peer's certificate is verified in this state. */
  predicate Verifying(hs: Hs) {
    match hs.state
    case Client(VerifyServerCertificate) => hs.cipher.usesCert
    case Server(VerifyClientCertificate) => hs.auth.peerCert
    case _ => false
  }

  /** A callback or a private key is asked: to verify a certificate, to choose one,
      to sign. */
  predicate Asks(hs: Hs, i: In) {
    Verifying(hs) ||
    match hs.state
    case Client(SendClientCertificate) => hs.auth.certRequest
    case Client(SendClientCertificateVerify) => hs.auth.certRequest && i.certificate
    case Client(SendClientFinished) => hs.ext.channelId
    case Server(ReadClientHello) => i.msg == Some(ClientHello) && !i.handoff
    case Server(SelectCertificate) => i.msg.Some?
    case Server(SendServerKeyExchange) => hs.cipher.params && hs.cipher.usesCert
    case _ => false
  }

  /** A message is taken only in the state that reads it and if it is there, and
      unless the call fails, only if it passes its checks; and nothing is sent and no
      key changed by a call that goes on after an operation failed. A call that
      fails stays where it is. */
  predicate Checked(hs: Hs, i: In, r: (Hs, Wait)) {
    && hs.trace <= r.0.trace
    && (forall x :: Got(x) in r.0.trace ==>
          Got(x) in hs.trace
          || (Reads(hs.state) == Some(x) && i.msg.Some? && (x == ClientHello || i.msg.value == x)))
    && (r.1 != Error && !i.ok ==> r.0.trace == hs.trace || r.0.trace == hs.trace + [Complete])
    && (r.1 == Error ==> r.0.state == hs.state)
    && (hs.state == Server(ReadClientHello) && r.0.state != hs.state ==>
          i.msg == Some(ClientHello) && i.ok && i.callback.Success?)
  }

  /** No call jumps over the ClientHello or over the verification of a certificate. */
  predicate PassesThrough(hs: Hs, h: Hs) {
    && (hs.state.Server? && Progress(hs) < 1 ==> Progress(h) <= 1)
    && (!h.session && !h.tls13 && hs.state != Client(ClientState.Tls13) && hs.state != Server(ServerState.Tls13) ==>
          && (hs.state.Server? && Progress(hs) < 10 ==> Progress(h) <= 10)
          && (hs.state.Client? && Progress(hs) < 7 ==> Progress(h) <= 7))
  }

  /** The answer of a callback decides: failure is an error, and the handshake waits
      where it is for an answer that is not there. */
  predicate Answered(hs: Hs, i: In, r: (Hs, Wait)) {
    Asks(hs, i) ==>
      && (i.callback.Failure? ==> r == (hs, Error))
      && (i.callback.Retry? ==> r.0 == hs && r.1 in {CertificateVerifyPending, X509Lookup, PrivateKeyOperation,
                                                     ChannelIdLookup, CertificateSelectionPending})
      && (Verifying(hs) && i.callback.Success? ==> r.1 == Ok && r.0.state != hs.state)
  }

  /** A peer may leave out what this state would read, and send what comes later. */
  predicate MayLeaveOut(hs: Hs, x: Msg) {
    match hs.state
    case Client(ReadHelloVerifyRequest) => true
    case Client(ReadCertificateStatus) => true
    case Client(ReadServerKeyExchange) => !hs.cipher.requiresSke
    case Client(ReadCertificateRequest) => x == ServerHelloDone
    case Server(ReadClientCertificate) => hs.cipher.ssl3 && x == ClientKeyExchange
    case _ => false
  }

  /** Nothing is wrong, below TLS 1.3: the message that the state reads is there, or
      another in place of one that may be left out; its checks pass, every operation
      works and every callback agrees. */
  predicate Willing(hs: Hs, i: In) {
    && i.ok && i.callback.Success? && i.lookup.None? && !i.handoff && !i.tls13 && !hs.tls13
    && !i.early && !hs.setup.earlyOffered
    && hs.state != Client(ClientState.Tls13) && hs.state != Server(ServerState.Tls13)
    && (Reads(hs.state).Some? ==>
          i.msg.Some? && (i.msg == Reads(hs.state) || MayLeaveOut(hs, i.msg.value)))
    && (hs.state == Server(ReadClientCertificate) && hs.cipher.ssl3 && i.msg == Some(Certificate) ==> i.certificate)
  }

  /** Then the call goes on; it may ask to flush, to open a ChangeCipherSpec, or for
      the false start. */
  predicate GoesOn(hs: Hs, i: In, r: (Hs, Wait)) {
    Willing(hs, i) ==>
      && r.1 in {Ok, Flush, Wait.ReadChangeCipherSpec, EarlyReturn}
      && Progress(r.0) > Progress(hs) && !r.0.tls13 && !r.0.setup.earlyOffered
      && r.0.state != Client(ClientState.Tls13) && r.0.state != Server(ServerState.Tls13)
      && (Reads(hs.state) == i.msg && Expects(hs) ==> Got(i.msg.value) in r.0.trace)
  }

  /** The state takes its message if it is there. */
  predicate Expects(hs: Hs) {
    match hs.state
    case Client(ReadServerCertificate) => hs.cipher.usesCert
    case Client(ReadCertificateStatus) => hs.auth.statusExpected
    case Client(ReadCertificateRequest) => hs.cipher.usesCert
    case Client(ReadSessionTicket) => hs.ext.ticketExpected
    case Server(ReadClientHello) => false
    case Server(SelectCertificate) => false
    case Server(ReadClientCertificate) => hs.auth.certRequest
    case Server(ReadClientCertificateVerify) => hs.auth.peerCert
    case Server(ReadNextProto) => hs.ext.nextProto
    case Server(ReadChannelId) => hs.ext.channelId
    case _ => Reads(hs.state).Some?
  }

  /** Where it is settled whether a session is resumed and whether the client has a
      certificate: nowhere else, and in an error not at all. */
  predicate Settles(hs: Hs, i: In, r: (Hs, Wait)) {
    var h := r.0;
    && (h.session != hs.session ==> hs.state in {Client(StartConnect), Client(ClientState.ReadServerHello),
                                                 Server(SelectParameters)} && h.state != hs.state)
    && (hs.state.Client? && h.session ==> hs.session)
    && (hs.state == Client(StartConnect) && h.state != hs.state ==> h.session == (hs.session && i.sameSession))
    && (hs.state.Server? && Got(ClientHello) in h.trace && Got(ClientHello) !in hs.trace ==>
          hs.state == Server(SelectParameters) && h.session == i.sameSession && Progress(h) > Progress(hs))
    && (hs.state.Server? && h.auth.peerCert != hs.auth.peerCert ==> hs.state == Server(ReadClientCertificate))
    && (hs.state == Client(ClientState.ReadServerHello) && h.trace != hs.trace ==>
          h.session == (hs.session && i.sameSession && !hs.setup.renegotiation))
    && h.setup.renegotiation == hs.setup.renegotiation
    && (hs.state == Server(ReadClientCertificate) && h.trace != hs.trace ==>
          h.auth.peerCert == i.certificate && Progress(h) > Progress(hs))
  }

  /** A message that may not come in this state. */
  predicate Misplaced(hs: Hs, i: In) {
    i.msg.Some? && i.msg != Reads(hs.state) && !MayLeaveOut(hs, i.msg.value) && !i.tls13
  }

  /** A state that takes a message waits for one if there is none, and fails on one
      that may not come there or does not pass its checks. */
  predicate Refuses(hs: Hs, i: In, r: (Hs, Wait)) {
    Reads(hs.state).Some? && (Expects(hs) || hs.state in {Server(ReadClientHello), Server(SelectCertificate)}) ==>
      && (i.msg.None? ==>
            r.0 == hs && r.1 == if hs.state == Client(ClientState.ReadServerHello) then Wait.ReadServerHello
                                else ReadMessage)
      && (Misplaced(hs, i) && hs.state !in {Server(SelectCertificate), Server(SelectParameters)} ==> r.1 == Error)
      && (i.msg == Reads(hs.state) && !i.ok && !i.callback.Retry? && i.lookup.None? && !i.handoff ==> r.1 == Error)
  }

  predicate Obeys(hs: Hs, i: In, r: (Hs, Wait)) {
    && Checked(hs, i, r) && Answered(hs, i, r) && Refuses(hs, i, r) && GoesOn(hs, i, r) && Settles(hs, i, r)
    && PassesThrough(hs, r.0)
  }

  // ----- the client's states -----

  lemma ClientStartConnectObeys(hs: Hs, i: In)
    requires hs.state == Client(ClientState.StartConnect)
    ensures Obeys(hs, i, C.DoStartConnect(hs, i))
  {
  }

  lemma ClientEnterEarlyDataObeys(hs: Hs, i: In)
    requires hs.state == Client(ClientState.EnterEarlyData)
    ensures Obeys(hs, i, C.DoEnterEarlyData(hs, i))
  {
  }

  lemma ClientReadHelloVerifyRequestChecked(hs: Hs, i: In)
    requires hs.state == Client(ClientState.ReadHelloVerifyRequest)
    ensures Checked(hs, i, C.DoReadHelloVerifyRequest(hs, i))
  {
  }

  lemma ClientReadHelloVerifyRequestObeys(hs: Hs, i: In)
    requires hs.state == Client(ClientState.ReadHelloVerifyRequest)
    ensures Obeys(hs, i, C.DoReadHelloVerifyRequest(hs, i))
  {
    hide Checked;
    ClientReadHelloVerifyRequestChecked(hs, i);
  }

  lemma ClientReadServerHelloChecked(hs: Hs, i: In)
    requires hs.state == Client(ClientState.ReadServerHello)
    ensures Checked(hs, i, C.DoReadServerHello(hs, i))
  {
  }

  lemma ClientReadServerHelloObeys(hs: Hs, i: In)
    requires hs.state == Client(ClientState.ReadServerHello)
    ensures Obeys(hs, i, C.DoReadServerHello(hs, i))
  {
    hide Checked;
    ClientReadServerHelloChecked(hs, i);
  }

  lemma ClientTls13Obeys(hs: Hs, i: In)
    requires hs.state == Client(ClientState.Tls13)
    ensures Obeys(hs, i, C.DoTls13(hs, i))
  {
  }

  lemma ClientReadServerCertificateObeys(hs: Hs, i: In)
    requires hs.state == Client(ClientState.ReadServerCertificate)
    ensures Obeys(hs, i, C.DoReadServerCertificate(hs, i))
  {
  }

  lemma ClientReadCertificateStatusObeys(hs: Hs, i: In)
    requires hs.state == Client(ClientState.ReadCertificateStatus)
    ensures Obeys(hs, i, C.DoReadCertificateStatus(hs, i))
  {
  }

  lemma ClientVerifyServerCertificateObeys(hs: Hs, i: In)
    requires hs.state == Client(ClientState.VerifyServerCertificate)
    ensures Obeys(hs, i, C.DoVerifyServerCertificate(hs, i))
  {
  }

  lemma ClientReadServerKeyExchangeChecked(hs: Hs, i: In)
    requires hs.state == Client(ClientState.ReadServerKeyExchange)
    ensures Checked(hs, i, C.DoReadServerKeyExchange(hs, i))
  {
  }

  lemma ClientReadServerKeyExchangeObeys(hs: Hs, i: In)
    requires hs.state == Client(ClientState.ReadServerKeyExchange)
    ensures Obeys(hs, i, C.DoReadServerKeyExchange(hs, i))
  {
    hide Checked;
    ClientReadServerKeyExchangeChecked(hs, i);
  }

  lemma ClientReadCertificateRequestChecked(hs: Hs, i: In)
    requires hs.state == Client(ClientState.ReadCertificateRequest)
    ensures Checked(hs, i, C.DoReadCertificateRequest(hs, i))
  {
  }

  lemma ClientReadCertificateRequestObeys(hs: Hs, i: In)
    requires hs.state == Client(ClientState.ReadCertificateRequest)
    ensures Obeys(hs, i, C.DoReadCertificateRequest(hs, i))
  {
    hide Checked;
    ClientReadCertificateRequestChecked(hs, i);
  }

  lemma ClientReadServerHelloDoneObeys(hs: Hs, i: In)
    requires hs.state == Client(ClientState.ReadServerHelloDone)
    ensures Obeys(hs, i, C.DoReadServerHelloDone(hs, i))
  {
  }

  lemma ClientSendClientCertificateObeys(hs: Hs, i: In)
    requires hs.state == Client(ClientState.SendClientCertificate)
    ensures Obeys(hs, i, C.DoSendClientCertificate(hs, i))
  {
  }

  lemma ClientSendClientKeyExchangeObeys(hs: Hs, i: In)
    requires hs.state == Client(ClientState.SendClientKeyExchange)
    ensures Obeys(hs, i, C.DoSendClientKeyExchange(hs, i))
  {
  }

  lemma ClientSendClientCertificateVerifyObeys(hs: Hs, i: In)
    requires hs.state == Client(ClientState.SendClientCertificateVerify)
    ensures Obeys(hs, i, C.DoSendClientCertificateVerify(hs, i))
  {
  }

  lemma ClientSendClientFinishedChecked(hs: Hs, i: In)
    requires hs.state == Client(ClientState.SendClientFinished)
    ensures Checked(hs, i, C.DoSendClientFinished(hs, i))
  {
    var es := [SentCcs, WriteKeys] + If(hs.ext.nextProto, Sent(NextProto)) + If(hs.ext.channelId, Sent(ChannelId))
        + [Sent(Finished)];
    NothingGot(hs, es);
  }

  /** Events none of which takes a message, some or all of them. */
  lemma NothingGot(hs: Hs, es: seq<Event>)
    requires forall e :: e in es ==> !e.Got?
    ensures forall n, x :: 0 <= n <= |es| && Got(x) in hs.trace + es[..n] ==> Got(x) in hs.trace
    ensures forall x :: Got(x) in hs.trace + es ==> Got(x) in hs.trace
  {
    forall n, x | 0 <= n <= |es| && Got(x) in hs.trace + es[..n] ensures Got(x) in hs.trace {
      assert forall e :: e in es[..n] ==> e in es;
    }
  }

  lemma ClientSendClientFinishedObeys(hs: Hs, i: In)
    requires hs.state == Client(ClientState.SendClientFinished)
    ensures Obeys(hs, i, C.DoSendClientFinished(hs, i))
  {
    hide Checked;
    ClientSendClientFinishedChecked(hs, i);
  }

  lemma ClientFinishFlightObeys(hs: Hs, i: In)
    requires hs.state == Client(ClientState.FinishFlight)
    ensures Obeys(hs, i, C.DoFinishFlight(hs, i))
  {
  }

  lemma ClientReadSessionTicketChecked(hs: Hs, i: In)
    requires hs.state == Client(ClientState.ReadSessionTicket)
    ensures Checked(hs, i, C.DoReadSessionTicket(hs, i))
  {
  }

  lemma ClientReadSessionTicketObeys(hs: Hs, i: In)
    requires hs.state == Client(ClientState.ReadSessionTicket)
    ensures Obeys(hs, i, C.DoReadSessionTicket(hs, i))
  {
    hide Checked;
    ClientReadSessionTicketChecked(hs, i);
  }

  lemma ClientProcessChangeCipherSpecObeys(hs: Hs, i: In)
    requires hs.state == Client(ClientState.ProcessChangeCipherSpec)
    ensures Obeys(hs, i, C.DoProcessChangeCipherSpec(hs, i))
  {
  }

  lemma ClientReadServerFinishedChecked(hs: Hs, i: In)
    requires hs.state == Client(ClientState.ReadServerFinished)
    ensures Checked(hs, i, C.DoReadServerFinished(hs, i))
  {
  }

  lemma ClientReadServerFinishedObeys(hs: Hs, i: In)
    requires hs.state == Client(ClientState.ReadServerFinished)
    ensures Obeys(hs, i, C.DoReadServerFinished(hs, i))
  {
    hide Checked;
    ClientReadServerFinishedChecked(hs, i);
  }

  lemma ClientFinishClientHandshakeObeys(hs: Hs, i: In)
    requires hs.state == Client(ClientState.FinishClientHandshake)
    ensures Obeys(hs, i, C.DoFinishClientHandshake(hs, i))
  {
  }

  lemma ClientObeys(hs: Hs, i: In)
    requires hs.state.Client? && !hs.state.c.Done?
    ensures Obeys(hs, i, C.Do(hs, i))
  {
    hide Obeys, C.DoStartConnect, C.DoEnterEarlyData, C.DoReadHelloVerifyRequest, C.DoReadServerHello,
         C.DoTls13, C.DoReadServerCertificate, C.DoReadCertificateStatus, C.DoVerifyServerCertificate,
         C.DoReadServerKeyExchange, C.DoReadCertificateRequest, C.DoReadServerHelloDone,
         C.DoSendClientCertificate, C.DoSendClientKeyExchange, C.DoSendClientCertificateVerify,
         C.DoSendClientFinished, C.DoFinishFlight, C.DoReadSessionTicket, C.DoProcessChangeCipherSpec,
         C.DoReadServerFinished, C.DoFinishClientHandshake;
    match hs.state.c
    case StartConnect => ClientStartConnectObeys(hs, i);
    case EnterEarlyData => ClientEnterEarlyDataObeys(hs, i);
    case ReadHelloVerifyRequest => ClientReadHelloVerifyRequestObeys(hs, i);
    case ReadServerHello => ClientReadServerHelloObeys(hs, i);
    case Tls13 => ClientTls13Obeys(hs, i);
    case ReadServerCertificate => ClientReadServerCertificateObeys(hs, i);
    case ReadCertificateStatus => ClientReadCertificateStatusObeys(hs, i);
    case VerifyServerCertificate => ClientVerifyServerCertificateObeys(hs, i);
    case ReadServerKeyExchange => ClientReadServerKeyExchangeObeys(hs, i);
    case ReadCertificateRequest => ClientReadCertificateRequestObeys(hs, i);
    case ReadServerHelloDone => ClientReadServerHelloDoneObeys(hs, i);
    case SendClientCertificate => ClientSendClientCertificateObeys(hs, i);
    case SendClientKeyExchange => ClientSendClientKeyExchangeObeys(hs, i);
    case SendClientCertificateVerify => ClientSendClientCertificateVerifyObeys(hs, i);
    case SendClientFinished => ClientSendClientFinishedObeys(hs, i);
    case FinishFlight => ClientFinishFlightObeys(hs, i);
    case ReadSessionTicket => ClientReadSessionTicketObeys(hs, i);
    case ProcessChangeCipherSpec => ClientProcessChangeCipherSpecObeys(hs, i);
    case ReadServerFinished => ClientReadServerFinishedObeys(hs, i);
    case FinishClientHandshake => ClientFinishClientHandshakeObeys(hs, i);
  }

  // ----- the server's states -----

  lemma ServerStartAcceptObeys(hs: Hs, i: In)
    requires hs.state == Server(ServerState.StartAccept)
    ensures Obeys(hs, i, S.DoStartAccept(hs, i))
  {
  }

  lemma ServerReadClientHelloObeys(hs: Hs, i: In)
    requires hs.state == Server(ServerState.ReadClientHello)
    ensures Obeys(hs, i, S.DoReadClientHello(hs, i))
  {
  }

  lemma ServerSelectCertificateObeys(hs: Hs, i: In)
    requires hs.state == Server(ServerState.SelectCertificate)
    ensures Obeys(hs, i, S.DoSelectCertificate(hs, i))
  {
  }

  lemma ServerTls13Obeys(hs: Hs, i: In)
    requires hs.state == Server(ServerState.Tls13)
    ensures Obeys(hs, i, S.DoTls13(hs, i))
  {
  }

  lemma ServerSelectParametersChecked(hs: Hs, i: In)
    requires hs.state == Server(ServerState.SelectParameters)
    ensures Checked(hs, i, S.DoSelectParameters(hs, i))
  {
  }

  lemma ServerSelectParametersSettles(hs: Hs, i: In)
    requires hs.state == Server(ServerState.SelectParameters)
    ensures Settles(hs, i, S.DoSelectParameters(hs, i))
  {
  }

  lemma ServerSelectParametersObeys(hs: Hs, i: In)
    requires hs.state == Server(ServerState.SelectParameters)
    ensures Obeys(hs, i, S.DoSelectParameters(hs, i))
  {
    hide Checked, Settles;
    ServerSelectParametersSettles(hs, i);
    ServerSelectParametersChecked(hs, i);
  }

  lemma ServerSendServerHelloChecked(hs: Hs, i: In)
    requires hs.state == Server(ServerState.SendServerHello)
    ensures Checked(hs, i, S.DoSendServerHello(hs, i))
  {
  }

  lemma ServerSendServerHelloObeys(hs: Hs, i: In)
    requires hs.state == Server(ServerState.SendServerHello)
    ensures Obeys(hs, i, S.DoSendServerHello(hs, i))
  {
    hide Checked;
    ServerSendServerHelloChecked(hs, i);
  }

  lemma ServerSendServerCertificateChecked(hs: Hs, i: In)
    requires hs.state == Server(ServerState.SendServerCertificate)
    ensures Checked(hs, i, S.DoSendServerCertificate(hs, i))
  {
  }

  lemma ServerSendServerCertificateObeys(hs: Hs, i: In)
    requires hs.state == Server(ServerState.SendServerCertificate)
    ensures Obeys(hs, i, S.DoSendServerCertificate(hs, i))
  {
    hide Checked;
    ServerSendServerCertificateChecked(hs, i);
  }

  lemma ServerSendServerKeyExchangeObeys(hs: Hs, i: In)
    requires hs.state == Server(ServerState.SendServerKeyExchange)
    ensures Obeys(hs, i, S.DoSendServerKeyExchange(hs, i))
  {
  }

  lemma ServerSendServerHelloDoneChecked(hs: Hs, i: In)
    requires hs.state == Server(ServerState.SendServerHelloDone)
    ensures Checked(hs, i, S.DoSendServerHelloDone(hs, i))
  {
  }

  lemma ServerSendServerHelloDoneObeys(hs: Hs, i: In)
    requires hs.state == Server(ServerState.SendServerHelloDone)
    ensures Obeys(hs, i, S.DoSendServerHelloDone(hs, i))
  {
    hide Checked;
    ServerSendServerHelloDoneChecked(hs, i);
  }

  lemma ServerReadClientCertificateChecked(hs: Hs, i: In)
    requires hs.state == Server(ServerState.ReadClientCertificate)
    ensures Checked(hs, i, S.DoReadClientCertificate(hs, i))
  {
  }

  lemma ServerReadClientCertificateSettles(hs: Hs, i: In)
    requires hs.state == Server(ServerState.ReadClientCertificate)
    ensures Settles(hs, i, S.DoReadClientCertificate(hs, i))
  {
  }

  lemma ServerReadClientCertificateObeys(hs: Hs, i: In)
    requires hs.state == Server(ServerState.ReadClientCertificate)
    ensures Obeys(hs, i, S.DoReadClientCertificate(hs, i))
  {
    hide Checked, Settles;
    ServerReadClientCertificateChecked(hs, i);
    ServerReadClientCertificateSettles(hs, i);
  }

  lemma ServerVerifyClientCertificateObeys(hs: Hs, i: In)
    requires hs.state == Server(ServerState.VerifyClientCertificate)
    ensures Obeys(hs, i, S.DoVerifyClientCertificate(hs, i))
  {
  }

  lemma ServerReadClientKeyExchangeChecked(hs: Hs, i: In)
    requires hs.state == Server(ServerState.ReadClientKeyExchange)
    ensures Checked(hs, i, S.DoReadClientKeyExchange(hs, i))
  {
  }

  lemma ServerReadClientKeyExchangeObeys(hs: Hs, i: In)
    requires hs.state == Server(ServerState.ReadClientKeyExchange)
    ensures Obeys(hs, i, S.DoReadClientKeyExchange(hs, i))
  {
    hide Checked;
    ServerReadClientKeyExchangeChecked(hs, i);
  }

  lemma ServerReadClientCertificateVerifyObeys(hs: Hs, i: In)
    requires hs.state == Server(ServerState.ReadClientCertificateVerify)
    ensures Obeys(hs, i, S.DoReadClientCertificateVerify(hs, i))
  {
  }

  lemma ServerReadChangeCipherSpecObeys(hs: Hs, i: In)
    requires hs.state == Server(ServerState.ReadChangeCipherSpec)
    ensures Obeys(hs, i, S.DoReadChangeCipherSpec(hs, i))
  {
  }

  lemma ServerProcessChangeCipherSpecObeys(hs: Hs, i: In)
    requires hs.state == Server(ServerState.ProcessChangeCipherSpec)
    ensures Obeys(hs, i, S.DoProcessChangeCipherSpec(hs, i))
  {
  }

  lemma ServerReadNextProtoChecked(hs: Hs, i: In)
    requires hs.state == Server(ServerState.ReadNextProto)
    ensures Checked(hs, i, S.DoReadNextProto(hs, i))
  {
  }

  lemma ServerReadNextProtoObeys(hs: Hs, i: In)
    requires hs.state == Server(ServerState.ReadNextProto)
    ensures Obeys(hs, i, S.DoReadNextProto(hs, i))
  {
    hide Checked;
    ServerReadNextProtoChecked(hs, i);
  }

  lemma ServerReadChannelIdChecked(hs: Hs, i: In)
    requires hs.state == Server(ServerState.ReadChannelId)
    ensures Checked(hs, i, S.DoReadChannelId(hs, i))
  {
  }

  lemma ServerReadChannelIdObeys(hs: Hs, i: In)
    requires hs.state == Server(ServerState.ReadChannelId)
    ensures Obeys(hs, i, S.DoReadChannelId(hs, i))
  {
    hide Checked;
    ServerReadChannelIdChecked(hs, i);
  }

  lemma ServerReadClientFinishedChecked(hs: Hs, i: In)
    requires hs.state == Server(ServerState.ReadClientFinished)
    ensures Checked(hs, i, S.DoReadClientFinished(hs, i))
  {
  }

  lemma ServerReadClientFinishedObeys(hs: Hs, i: In)
    requires hs.state == Server(ServerState.ReadClientFinished)
    ensures Obeys(hs, i, S.DoReadClientFinished(hs, i))
  {
    hide Checked;
    ServerReadClientFinishedChecked(hs, i);
  }

  lemma ServerSendServerFinishedChecked(hs: Hs, i: In)
    requires hs.state == Server(ServerState.SendServerFinished)
    ensures Checked(hs, i, S.DoSendServerFinished(hs, i))
  {
  }

  lemma ServerSendServerFinishedSettles(hs: Hs, i: In)
    requires hs.state == Server(ServerState.SendServerFinished)
    ensures Settles(hs, i, S.DoSendServerFinished(hs, i))
  {
  }

  lemma ServerSendServerFinishedObeys(hs: Hs, i: In)
    requires hs.state == Server(ServerState.SendServerFinished)
    ensures Obeys(hs, i, S.DoSendServerFinished(hs, i))
  {
    hide Checked, Settles;
    ServerSendServerFinishedChecked(hs, i);
    ServerSendServerFinishedSettles(hs, i);
  }

  lemma ServerFinishServerHandshakeObeys(hs: Hs, i: In)
    requires hs.state == Server(ServerState.FinishServerHandshake)
    ensures Obeys(hs, i, S.DoFinishServerHandshake(hs, i))
  {
  }

  lemma ServerObeys(hs: Hs, i: In)
    requires hs.state.Server? && !hs.state.s.Done?
    ensures Obeys(hs, i, S.Do(hs, i))
  {
    hide Obeys, S.DoStartAccept, S.DoReadClientHello, S.DoSelectCertificate, S.DoTls13, S.DoSelectParameters,
         S.DoSendServerHello, S.DoSendServerCertificate, S.DoSendServerKeyExchange, S.DoSendServerHelloDone,
         S.DoReadClientCertificate, S.DoVerifyClientCertificate, S.DoReadClientKeyExchange,
         S.DoReadClientCertificateVerify, S.DoReadChangeCipherSpec, S.DoProcessChangeCipherSpec,
         S.DoReadNextProto, S.DoReadChannelId, S.DoReadClientFinished, S.DoSendServerFinished,
         S.DoFinishServerHandshake;
    match hs.state.s
    case StartAccept => ServerStartAcceptObeys(hs, i);
    case ReadClientHello => ServerReadClientHelloObeys(hs, i);
    case SelectCertificate => ServerSelectCertificateObeys(hs, i);
    case Tls13 => ServerTls13Obeys(hs, i);
    case SelectParameters => ServerSelectParametersObeys(hs, i);
    case SendServerHello => ServerSendServerHelloObeys(hs, i);
    case SendServerCertificate => ServerSendServerCertificateObeys(hs, i);
    case SendServerKeyExchange => ServerSendServerKeyExchangeObeys(hs, i);
    case SendServerHelloDone => ServerSendServerHelloDoneObeys(hs, i);
    case ReadClientCertificate => ServerReadClientCertificateObeys(hs, i);
    case VerifyClientCertificate => ServerVerifyClientCertificateObeys(hs, i);
    case ReadClientKeyExchange => ServerReadClientKeyExchangeObeys(hs, i);
    case ReadClientCertificateVerify => ServerReadClientCertificateVerifyObeys(hs, i);
    case ReadChangeCipherSpec => ServerReadChangeCipherSpecObeys(hs, i);
    case ProcessChangeCipherSpec => ServerProcessChangeCipherSpecObeys(hs, i);
    case ReadNextProto => ServerReadNextProtoObeys(hs, i);
    case ReadChannelId => ServerReadChannelIdObeys(hs, i);
    case ReadClientFinished => ServerReadClientFinishedObeys(hs, i);
    case SendServerFinished => ServerSendServerFinishedObeys(hs, i);
    case FinishServerHandshake => ServerFinishServerHandshakeObeys(hs, i);
  }

  // ----- what is agreed on -----

  predicate Unchanged(hs: Hs, h: Hs) { h.cipher == hs.cipher && h.auth == hs.auth && h.ext == hs.ext }

  /** What the client takes over from the server, and when it may send before the
      server's Finished: after a full handshake's flight, if the configuration has
      the false start, over TLS and the first time. */
  predicate ClientAgrees(hs: Hs, i: In, r: (Hs, Wait)) {
    var h := r.0;
    var goes := h.state != hs.state;
    && h.setup.dtls == hs.setup.dtls
    && (h.setup.earlyOffered == if hs.state == Client(StartConnect) && goes then i.early else hs.setup.earlyOffered)
    && (r.1 == EarlyReturn <==>
          i.ok && ((hs.state == Client(EnterEarlyData) && hs.setup.earlyOffered && !hs.setup.dtls)
                   || (hs.state == Client(FinishFlight) && !hs.session && i.falseStart && !hs.setup.dtls
                       && !hs.setup.renegotiation)))
    && match hs.state
       case Client(ReadServerHello) =>
         if !goes || h.state == Client(ClientState.Tls13) then Unchanged(hs, h)
         else
           && h.cipher.ssl3 == i.ssl3 && h.cipher.usesCert == i.usesCert && h.cipher.requiresSke == i.requiresSke
           && !h.cipher.params && !h.auth.certRequest && !h.auth.peerCert && h.auth.statusExpected == i.status
           && h.ext.ticketExpected == i.ticket && h.ext.nextProto == i.nextProto && h.ext.channelId == i.channelId
       case Client(ReadCertificateRequest) =>
         h.cipher == hs.cipher && h.ext == hs.ext
         && h.auth == if goes && hs.cipher.usesCert && i.msg == Some(CertificateRequest) then
                        hs.auth.(certRequest := true)
                      else hs.auth
       case Client(ReadSessionTicket) =>
         h.cipher == hs.cipher && h.auth == hs.auth
         && h.ext == if goes && hs.ext.ticketExpected then hs.ext.(ticketExpected := !i.emptyTicket) else hs.ext
       case _ => Unchanged(hs, h)
  }

  /** What the server settles: from the ClientHello, by its choice of a cipher, by
      whether it resumes, and by its configuration. */
  predicate ServerAgrees(hs: Hs, i: In, r: (Hs, Wait)) {
    var h := r.0;
    var goes := h.state != hs.state;
    && h.setup == hs.setup
    && match hs.state
       case Server(ReadClientHello) =>
         if !goes then Unchanged(hs, h)
         else
           && h.cipher == hs.cipher.(ssl3 := i.ssl3) && h.auth == hs.auth.(statusExpected := i.status)
           && h.ext == hs.ext.(nextProto := i.nextProto, channelId := i.channelId)
           && h.tls13 == (hs.tls13 || i.tls13)
       case Server(SelectCertificate) =>
         h.auth == hs.auth && h.ext == hs.ext
         && h.cipher == if goes && !hs.tls13 then hs.cipher.(usesCert := i.usesCert, requiresSke := i.requiresSke)
                        else hs.cipher
       case Server(SelectParameters) =>
         if !goes then Unchanged(hs, h)
         else
           && h.cipher == hs.cipher && h.ext == hs.ext.(ticketExpected := i.ticket)
           && h.auth == hs.auth.(certRequest := !i.sameSession && hs.cipher.usesCert && i.askCert)
       case Server(SendServerHello) =>
         h.cipher == hs.cipher && h.auth == hs.auth
         && h.ext == if goes && i.dropChannelId then hs.ext.(channelId := false) else hs.ext
       case Server(SendServerCertificate) =>
         h.auth == hs.auth && h.ext == hs.ext
         && h.cipher == if goes then hs.cipher.(params := hs.cipher.requiresSke || i.params) else hs.cipher
       case Server(ReadClientCertificate) =>
         h.cipher == hs.cipher && h.ext == hs.ext
         && h.auth == if goes && hs.auth.certRequest && i.msg == Some(Certificate) then
                        hs.auth.(peerCert := i.certificate)
                      else hs.auth
       case _ => Unchanged(hs, h)
  }

  lemma ClientFirstAgree(hs: Hs, i: In)
    ensures hs.state == Client(ClientState.StartConnect) ==> ClientAgrees(hs, i, C.DoStartConnect(hs, i))
    ensures hs.state == Client(ClientState.EnterEarlyData) ==> ClientAgrees(hs, i, C.DoEnterEarlyData(hs, i))
    ensures hs.state == Client(ClientState.ReadHelloVerifyRequest) ==>
              ClientAgrees(hs, i, C.DoReadHelloVerifyRequest(hs, i))
  {
  }

  lemma ClientHelloAgree(hs: Hs, i: In)
    requires hs.state == Client(ClientState.ReadServerHello)
    ensures ClientAgrees(hs, i, C.DoReadServerHello(hs, i))
  {
    NegotiatedFields(hs, i);
    hide C.Negotiated;
    if i.msg.Some? && !(i.tls13 && i.ok) && !hs.setup.earlyOffered && i.msg.value == ServerHello && i.ok {
      assert C.DoReadServerHello(hs, i).0.state != hs.state;
    } else {
      assert C.DoReadServerHello(hs, i).0 == hs || C.DoReadServerHello(hs, i).0.state == Client(ClientState.Tls13);
    }
  }

  lemma NegotiatedFields(hs: Hs, i: In)
    ensures var h := C.Negotiated(hs, i);
            && h.cipher == Suite(i.ssl3, i.usesCert, i.requiresSke, false) && h.auth == Auth(false, false, i.status)
            && h.ext == Extensions(i.ticket, i.nextProto, i.channelId) && h.setup == hs.setup && h.state == hs.state
  {
  }

  lemma ClientSecondAgree(hs: Hs, i: In)
    ensures hs.state == Client(ClientState.ReadServerHello) ==> ClientAgrees(hs, i, C.DoReadServerHello(hs, i))
    ensures hs.state == Client(ClientState.ReadServerCertificate) ==>
              ClientAgrees(hs, i, C.DoReadServerCertificate(hs, i))
  {
    hide C.DoReadServerHello;
    if hs.state == Client(ClientState.ReadServerHello) { ClientHelloAgree(hs, i); }
  }

  lemma ClientThirdAgree(hs: Hs, i: In)
    ensures hs.state == Client(ClientState.ReadCertificateStatus) ==>
              ClientAgrees(hs, i, C.DoReadCertificateStatus(hs, i))
    ensures hs.state == Client(ClientState.VerifyServerCertificate) ==>
              ClientAgrees(hs, i, C.DoVerifyServerCertificate(hs, i))
    ensures hs.state == Client(ClientState.ReadServerKeyExchange) ==>
              ClientAgrees(hs, i, C.DoReadServerKeyExchange(hs, i))
  {
  }

  lemma ClientFourthAgree(hs: Hs, i: In)
    ensures hs.state == Client(ClientState.ReadCertificateRequest) ==>
              ClientAgrees(hs, i, C.DoReadCertificateRequest(hs, i))
    ensures hs.state == Client(ClientState.ReadServerHelloDone) ==>
              ClientAgrees(hs, i, C.DoReadServerHelloDone(hs, i))
    ensures hs.state == Client(ClientState.SendClientCertificate) ==>
              ClientAgrees(hs, i, C.DoSendClientCertificate(hs, i))
  {
  }

  lemma ClientFifthAgree(hs: Hs, i: In)
    ensures hs.state == Client(ClientState.SendClientKeyExchange) ==>
              ClientAgrees(hs, i, C.DoSendClientKeyExchange(hs, i))
    ensures hs.state == Client(ClientState.SendClientCertificateVerify) ==>
              ClientAgrees(hs, i, C.DoSendClientCertificateVerify(hs, i))
    ensures hs.state == Client(ClientState.SendClientFinished) ==> ClientAgrees(hs, i, C.DoSendClientFinished(hs, i))
  {
  }

  lemma ClientSixthAgree(hs: Hs, i: In)
    ensures hs.state == Client(ClientState.FinishFlight) ==> ClientAgrees(hs, i, C.DoFinishFlight(hs, i))
    ensures hs.state == Client(ClientState.ReadSessionTicket) ==> ClientAgrees(hs, i, C.DoReadSessionTicket(hs, i))
    ensures hs.state == Client(ClientState.ProcessChangeCipherSpec) ==>
              ClientAgrees(hs, i, C.DoProcessChangeCipherSpec(hs, i))
  {
  }

  lemma ClientLastAgree(hs: Hs, i: In)
    ensures hs.state == Client(ClientState.ReadServerFinished) ==> ClientAgrees(hs, i, C.DoReadServerFinished(hs, i))
    ensures hs.state == Client(ClientState.FinishClientHandshake) ==>
              ClientAgrees(hs, i, C.DoFinishClientHandshake(hs, i))
  {
  }

  lemma ClientDoAgrees(hs: Hs, i: In)
    requires hs.state.Client? && !hs.state.c.Done? && hs.state != Client(ClientState.Tls13)
    ensures ClientAgrees(hs, i, C.Do(hs, i))
  {
    hide ClientAgrees, C.DoStartConnect, C.DoEnterEarlyData, C.DoReadHelloVerifyRequest, C.DoReadServerHello,
         C.DoTls13, C.DoReadServerCertificate, C.DoReadCertificateStatus, C.DoVerifyServerCertificate,
         C.DoReadServerKeyExchange, C.DoReadCertificateRequest, C.DoReadServerHelloDone,
         C.DoSendClientCertificate, C.DoSendClientKeyExchange, C.DoSendClientCertificateVerify,
         C.DoSendClientFinished, C.DoFinishFlight, C.DoReadSessionTicket, C.DoProcessChangeCipherSpec,
         C.DoReadServerFinished, C.DoFinishClientHandshake;
    ClientFirstAgree(hs, i);
    ClientSecondAgree(hs, i);
    ClientThirdAgree(hs, i);
    ClientFourthAgree(hs, i);
    ClientFifthAgree(hs, i);
    ClientSixthAgree(hs, i);
    ClientLastAgree(hs, i);
  }

  lemma ServerFirstAgree(hs: Hs, i: In)
    ensures hs.state == Server(ServerState.StartAccept) ==> ServerAgrees(hs, i, S.DoStartAccept(hs, i))
    ensures hs.state == Server(ServerState.ReadClientHello) ==> ServerAgrees(hs, i, S.DoReadClientHello(hs, i))
    ensures hs.state == Server(ServerState.SelectCertificate) ==> ServerAgrees(hs, i, S.DoSelectCertificate(hs, i))
    ensures hs.state == Server(ServerState.Tls13) ==> ServerAgrees(hs, i, S.DoTls13(hs, i))
  {
  }

  lemma ServerSecondAgree(hs: Hs, i: In)
    ensures hs.state == Server(ServerState.SelectParameters) ==> ServerAgrees(hs, i, S.DoSelectParameters(hs, i))
    ensures hs.state == Server(ServerState.SendServerHello) ==> ServerAgrees(hs, i, S.DoSendServerHello(hs, i))
    ensures hs.state == Server(ServerState.SendServerCertificate) ==>
              ServerAgrees(hs, i, S.DoSendServerCertificate(hs, i))
    ensures hs.state == Server(ServerState.SendServerKeyExchange) ==>
              ServerAgrees(hs, i, S.DoSendServerKeyExchange(hs, i))
  {
  }

  lemma ServerThirdAgree(hs: Hs, i: In)
    ensures hs.state == Server(ServerState.SendServerHelloDone) ==>
              ServerAgrees(hs, i, S.DoSendServerHelloDone(hs, i))
    ensures hs.state == Server(ServerState.ReadClientCertificate) ==>
              ServerAgrees(hs, i, S.DoReadClientCertificate(hs, i))
    ensures hs.state == Server(ServerState.VerifyClientCertificate) ==>
              ServerAgrees(hs, i, S.DoVerifyClientCertificate(hs, i))
    ensures hs.state == Server(ServerState.ReadClientKeyExchange) ==>
              ServerAgrees(hs, i, S.DoReadClientKeyExchange(hs, i))
  {
  }

  lemma ServerFourthAgree(hs: Hs, i: In)
    ensures hs.state == Server(ServerState.ReadClientCertificateVerify) ==>
              ServerAgrees(hs, i, S.DoReadClientCertificateVerify(hs, i))
    ensures hs.state == Server(ServerState.ReadChangeCipherSpec) ==>
              ServerAgrees(hs, i, S.DoReadChangeCipherSpec(hs, i))
    ensures hs.state == Server(ServerState.ProcessChangeCipherSpec) ==>
              ServerAgrees(hs, i, S.DoProcessChangeCipherSpec(hs, i))
    ensures hs.state == Server(ServerState.ReadNextProto) ==> ServerAgrees(hs, i, S.DoReadNextProto(hs, i))
  {
  }

  lemma ServerLastAgree(hs: Hs, i: In)
    ensures hs.state == Server(ServerState.ReadChannelId) ==> ServerAgrees(hs, i, S.DoReadChannelId(hs, i))
    ensures hs.state == Server(ServerState.ReadClientFinished) ==> ServerAgrees(hs, i, S.DoReadClientFinished(hs, i))
    ensures hs.state == Server(ServerState.SendServerFinished) ==> ServerAgrees(hs, i, S.DoSendServerFinished(hs, i))
    ensures hs.state == Server(ServerState.FinishServerHandshake) ==>
              ServerAgrees(hs, i, S.DoFinishServerHandshake(hs, i))
  {
  }

  lemma ServerDoAgrees(hs: Hs, i: In)
    requires hs.state.Server? && !hs.state.s.Done? && hs.state != Server(ServerState.Tls13)
    ensures ServerAgrees(hs, i, S.Do(hs, i))
  {
    hide ServerAgrees, S.DoStartAccept, S.DoReadClientHello, S.DoSelectCertificate, S.DoTls13,
         S.DoSelectParameters, S.DoSendServerHello, S.DoSendServerCertificate, S.DoSendServerKeyExchange,
         S.DoSendServerHelloDone, S.DoReadClientCertificate, S.DoVerifyClientCertificate,
         S.DoReadClientKeyExchange, S.DoReadClientCertificateVerify, S.DoReadChangeCipherSpec,
         S.DoProcessChangeCipherSpec, S.DoReadNextProto, S.DoReadChannelId, S.DoReadClientFinished,
         S.DoSendServerFinished, S.DoFinishServerHandshake;
    ServerFirstAgree(hs, i);
    ServerSecondAgree(hs, i);
    ServerThirdAgree(hs, i);
    ServerFourthAgree(hs, i);
    ServerLastAgree(hs, i);
  }
}
