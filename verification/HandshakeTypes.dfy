/** The TLS handshake as both sides share it: messages, events, what a handshake
    waits for, and what its environment decides (handshake.cc:491-628). Versions up
    to TLS 1.2; sections 7.1 and 7.3 of RFC 5246. */
module HandshakeTypes {
  import opened Wrappers

  datatype Msg = ClientHello | HelloVerifyRequest | ServerHello | Certificate | CertificateStatus
               | ServerKeyExchange | CertificateRequest | ServerHelloDone | ClientKeyExchange
               | CertificateVerify | NextProto | ChannelId | NewSessionTicket | Finished | OtherMessage

  /** What a handshake does that its peer or its record layer can see. Got is a
      message that was checked and taken; SecondHello is the ClientHello that
      answers a HelloVerifyRequest; the Early events belong to TLS 1.3 early data. */
  datatype Event = Sent(msg: Msg) | Got(msg: Msg) | SecondHello | NoCertificateAlert
                 | SentCcs | OpenedCcs | WriteKeys | ReadKeys | EarlyCcs | EarlyKeys | Complete

  /** enum ssl_hs_wait_t. */
  datatype Wait = Ok | Error | ReadServerHello | ReadMessage | Flush | CertificateSelectionPending | Handoff
                | X509Lookup | ChannelIdLookup | PrivateKeyOperation | PendingSession | PendingTicket
                | EarlyReturn | EarlyDataRejected | ReadEndOfEarlyData | ReadChangeCipherSpec | CertificateVerifyPending

  datatype Callback = Success | Failure | Retry

  /** What the environment decides in one call: the message that is there to read,
      whether every check and operation of the call succeeds (and if not, how many
      of its visible effects come before the failure), and the answers of
      callbacks, of the peer's messages and of the configuration. */
  datatype In = In(
    msg: Option<Msg>, ok: bool, done: nat, answer: bool,
    tls13: bool, wait13: Wait, ssl3: bool, early: bool,
    sameSession: bool, lookup: Option<Wait>,
    usesCert: bool, requiresSke: bool, params: bool, status: bool, ticket: bool, emptyTicket: bool,
    nextProto: bool, channelId: bool, dropChannelId: bool, askCert: bool,
    callback: Callback, certificate: bool, handoff: bool, falseStart: bool)

  datatype ClientState =
    | StartConnect | EnterEarlyData | ReadHelloVerifyRequest | ReadServerHello | Tls13
    | ReadServerCertificate | ReadCertificateStatus | VerifyServerCertificate | ReadServerKeyExchange
    | ReadCertificateRequest | ReadServerHelloDone | SendClientCertificate | SendClientKeyExchange
    | SendClientCertificateVerify | SendClientFinished | FinishFlight | ReadSessionTicket
    | ProcessChangeCipherSpec | ReadServerFinished | FinishClientHandshake | Done

  datatype ServerState =
    | StartAccept | ReadClientHello | SelectCertificate | Tls13 | SelectParameters | SendServerHello
    | SendServerCertificate | SendServerKeyExchange | SendServerHelloDone | ReadClientCertificate
    | VerifyClientCertificate | ReadClientKeyExchange | ReadClientCertificateVerify | ReadChangeCipherSpec
    | ProcessChangeCipherSpec | ReadNextProto | ReadChannelId | ReadClientFinished | SendServerFinished
    | FinishServerHandshake | Done

  datatype State = Client(c: ClientState) | Server(s: ServerState)

  /** What is settled before the handshake starts or by the ClientHello. */
  datatype Setup = Setup(dtls: bool, renegotiation: bool, earlyOffered: bool)
  /** The version and the cipher; params says that there are ServerKeyExchange
      parameters. */
  datatype Suite = Suite(ssl3: bool, usesCert: bool, requiresSke: bool, params: bool)
  /** Certificates; peerCert says that the client sent one. */
  datatype Auth = Auth(certRequest: bool, peerCert: bool, statusExpected: bool)
  datatype Extensions = Extensions(ticketExpected: bool, nextProto: bool, channelId: bool)

  /** SSL_HANDSHAKE with the connection's fields that the state machines use.
      session says that ssl->session is set: after the ServerHello that means a
      resumption. */
  datatype Hs = Hs(state: State, session: bool, tls13: bool, setup: Setup, cipher: Suite, auth: Auth, ext: Extensions,
                   trace: seq<Event>)

  /** A new handshake: on a server there is no session yet; on a client there may be
      one to offer. */
  function NewHs(server: bool, dtls: bool, renegotiation: bool, offered: bool): Hs {
    Hs(if server then Server(StartAccept) else Client(StartConnect), !server && offered, false,
       Setup(dtls, renegotiation, false), Suite(false, false, false, false), Auth(false, false, false),
       Extensions(false, false, false), [])
  }

  function ToC(hs: Hs, c: ClientState): Hs { hs.(state := Client(c)) }
  function ToS(hs: Hs, s: ServerState): Hs { hs.(state := Server(s)) }

  // What a call may settle.
  function Offering(hs: Hs, session: bool, early: bool): Hs {
    hs.(session := session, setup := hs.setup.(earlyOffered := early))
  }
  function Asking(hs: Hs, certRequest: bool): Hs { hs.(auth := hs.auth.(certRequest := certRequest)) }
  function Expecting(hs: Hs, ticket: bool): Hs { hs.(ext := hs.ext.(ticketExpected := ticket)) }
  function Greeted(hs: Hs, tls13: bool, i: In): Hs {
    hs.(tls13 := tls13, cipher := hs.cipher.(ssl3 := i.ssl3), auth := hs.auth.(statusExpected := i.status),
        ext := hs.ext.(nextProto := i.nextProto, channelId := i.channelId))
  }
  function Choosing(hs: Hs, i: In): Hs {
    hs.(cipher := hs.cipher.(usesCert := i.usesCert, requiresSke := i.requiresSke))
  }
  function Resuming(hs: Hs, session: bool, ticket: bool, certRequest: bool): Hs {
    Asking(Expecting(hs, ticket), certRequest).(session := session)
  }
  function Keeping(hs: Hs, channelId: bool): Hs { hs.(ext := hs.ext.(channelId := channelId)) }
  function WithParams(hs: Hs, params: bool): Hs { hs.(cipher := hs.cipher.(params := params)) }
  function WithPeer(hs: Hs, peerCert: bool): Hs { hs.(auth := hs.auth.(peerCert := peerCert)) }

  function Log(hs: Hs, es: seq<Event>): Hs { hs.(trace := hs.trace + es) }

  /** Effects of a call that fails after some of them. */
  function Partly(hs: Hs, es: seq<Event>, done: nat): (Hs, Wait) {
    (Log(hs, es[..if done <= |es| then done else |es|]), Error)
  }

  /** What a call waits for that did not find a good message: for a message, if
      there is none. */
  function Missing(i: In): Wait { if i.msg.None? then ReadMessage else Error }

  function If(b: bool, e: Event): seq<Event> { if b then [e] else [] }

  // ----- how far a handshake is -----

  function ClientProgress(c: ClientState, resumed: bool): nat {
    match c
    case StartConnect => 0
    case EnterEarlyData => 1
    case ReadHelloVerifyRequest => 2
    case ReadServerHello => 3
    case Tls13 => 4
    case ReadServerCertificate => 5
    case ReadCertificateStatus => 6
    case VerifyServerCertificate => 7
    case ReadServerKeyExchange => 8
    case ReadCertificateRequest => 9
    case ReadServerHelloDone => 10
    case SendClientCertificate => 11
    case SendClientKeyExchange => 12
    case SendClientCertificateVerify => 13
    case SendClientFinished => 14
    case FinishFlight => 15
    case ReadSessionTicket => if resumed then 5 else 16
    case ProcessChangeCipherSpec => if resumed then 6 else 17
    case ReadServerFinished => if resumed then 7 else 18
    case FinishClientHandshake => 19
    case Done => 20
  }

  function ServerProgress(s: ServerState, resumed: bool): nat {
    match s
    case StartAccept => 0
    case ReadClientHello => 1
    case SelectCertificate => 2
    case Tls13 => 3
    case SelectParameters => 4
    case SendServerHello => 5
    case SendServerCertificate => 6
    case SendServerKeyExchange => 7
    case SendServerHelloDone => 8
    case ReadClientCertificate => 9
    case VerifyClientCertificate => 10
    case ReadClientKeyExchange => 11
    case ReadClientCertificateVerify => 12
    case ReadChangeCipherSpec => 13
    case ProcessChangeCipherSpec => 14
    case ReadNextProto => 15
    case ReadChannelId => 16
    case ReadClientFinished => 17
    case SendServerFinished => if resumed then 6 else 18
    case FinishServerHandshake => 19
    case Done => 20
  }

  const LAST: nat := 20

  /** The resumption's jumps back in the enumeration are steps forward here. */
  function Progress(hs: Hs): (r: nat)
    ensures r <= LAST
  {
    match hs.state case Client(c) => ClientProgress(c, hs.session) case Server(s) => ServerProgress(s, hs.session)
  }

  /** What every state's function keeps: the side and the choice of TLS 1.3 stay;
      the handshake never goes back, and when the function does not wait or fail it
      goes forward. */
  predicate Advances(hs: Hs, r: (Hs, Wait)) {
    && r.0.state.Client? == hs.state.Client? && (hs.tls13 ==> r.0.tls13)
    && Progress(r.0) >= Progress(hs) && (r.1 == Ok ==> Progress(r.0) > Progress(hs))
  }
}
