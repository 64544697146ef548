/** The order of a handshake's events: for each side and kind of handshake, where
    an event stands in the message flow (figures 1 and 2 of RFC 5246), which events
    must happen and which may. */
module HandshakeOrder {
  import opened Wrappers
  import opened HandshakeTypes

  const NEVER: nat := 99

  function ClientRank(resumed: bool, e: Event): nat {
    match e
    case Sent(ClientHello) => 0
    case Got(HelloVerifyRequest) => 1
    case EarlyCcs => 1
    case SecondHello => 2
    case EarlyKeys => 2
    case Got(ServerHello) => 3
    case Got(Certificate) => 4
    case Got(CertificateStatus) => 5
    case Got(ServerKeyExchange) => 6
    case Got(CertificateRequest) => 7
    case Got(ServerHelloDone) => 8
    case Sent(Certificate) => 9
    case NoCertificateAlert => 9
    case Sent(ClientKeyExchange) => 10
    case Sent(CertificateVerify) => 11
    case SentCcs => 12
    case WriteKeys => 13
    case Sent(NextProto) => 14
    case Sent(ChannelId) => 15
    case Sent(Finished) => 16
    case Got(NewSessionTicket) => if resumed then 4 else 17
    case OpenedCcs => if resumed then 5 else 18
    case ReadKeys => if resumed then 6 else 19
    case Got(Finished) => if resumed then 7 else 20
    case Complete => 21
    case _ => NEVER
  }

  function ServerRank(resumed: bool, e: Event): nat {
    match e
    case Got(ClientHello) => 0
    case Sent(ServerHello) => 1
    case Sent(Certificate) => 2
    case Sent(CertificateStatus) => 3
    case Sent(ServerKeyExchange) => 4
    case Sent(CertificateRequest) => 5
    case Sent(ServerHelloDone) => 6
    case Got(Certificate) => 7
    case Got(ClientKeyExchange) => 8
    case Got(CertificateVerify) => 9
    case OpenedCcs => 10
    case ReadKeys => 11
    case Got(NextProto) => 12
    case Got(ChannelId) => 13
    case Got(Finished) => 14
    case Sent(NewSessionTicket) => if resumed then 2 else 15
    case SentCcs => if resumed then 3 else 16
    case WriteKeys => if resumed then 4 else 17
    case Sent(Finished) => if resumed then 5 else 18
    case Complete => 19
    case _ => NEVER
  }

  function Rank(hs: Hs, e: Event): nat {
    if hs.state.Client? then ClientRank(hs.session, e) else ServerRank(hs.session, e)
  }

  function When(b: bool, e: Event): Option<Event> { if b then Some(e) else None }

  /** The event that must happen at a rank, if there is one. */
  function ClientMust(hs: Hs, r: nat): Option<Event> {
    match r
    case 0 => Some(Sent(ClientHello))
    case 3 => Some(Got(ServerHello))
    case 4 => if hs.session then When(hs.ext.ticketExpected, Got(NewSessionTicket))
        else When(hs.cipher.usesCert, Got(Certificate))
    case 5 => When(hs.session, OpenedCcs)
    case 6 => if hs.session then Some(ReadKeys) else When(hs.cipher.requiresSke, Got(ServerKeyExchange))
    case 7 => if hs.session then Some(Got(Finished)) else When(hs.auth.certRequest, Got(CertificateRequest))
    case 8 => When(!hs.session, Got(ServerHelloDone))
    case 9 => When(!hs.session && hs.auth.certRequest && !hs.cipher.ssl3, Sent(Certificate))
    case 10 => When(!hs.session, Sent(ClientKeyExchange))
    case 12 => Some(SentCcs)
    case 13 => Some(WriteKeys)
    case 14 => When(hs.ext.nextProto, Sent(NextProto))
    case 15 => When(hs.ext.channelId, Sent(ChannelId))
    case 16 => Some(Sent(Finished))
    case 17 => When(!hs.session && hs.ext.ticketExpected, Got(NewSessionTicket))
    case 18 => When(!hs.session, OpenedCcs)
    case 19 => When(!hs.session, ReadKeys)
    case 20 => When(!hs.session, Got(Finished))
    case 21 => Some(Complete)
    case _ => None
  }

  function ServerMust(hs: Hs, r: nat): Option<Event> {
    match r
    case 0 => Some(Got(ClientHello))
    case 1 => Some(Sent(ServerHello))
    case 2 => if hs.session then When(hs.ext.ticketExpected, Sent(NewSessionTicket))
        else When(hs.cipher.usesCert, Sent(Certificate))
    case 3 => if hs.session then Some(SentCcs)
        else When(hs.cipher.usesCert && hs.auth.statusExpected, Sent(CertificateStatus))
    case 4 => if hs.session then Some(WriteKeys) else When(hs.cipher.params, Sent(ServerKeyExchange))
    case 5 => if hs.session then Some(Sent(Finished)) else When(hs.auth.certRequest, Sent(CertificateRequest))
    case 6 => When(!hs.session, Sent(ServerHelloDone))
    case 7 => When(!hs.session && hs.auth.certRequest && !hs.cipher.ssl3, Got(Certificate))
    case 8 => When(!hs.session, Got(ClientKeyExchange))
    case 9 => When(!hs.session && hs.auth.peerCert, Got(CertificateVerify))
    case 10 => Some(OpenedCcs)
    case 11 => Some(ReadKeys)
    case 12 => When(hs.ext.nextProto, Got(NextProto))
    case 13 => When(hs.ext.channelId, Got(ChannelId))
    case 14 => Some(Got(Finished))
    case 15 => When(!hs.session && hs.ext.ticketExpected, Sent(NewSessionTicket))
    case 16 => When(!hs.session, SentCcs)
    case 17 => When(!hs.session, WriteKeys)
    case 18 => When(!hs.session, Sent(Finished))
    case 19 => Some(Complete)
    case _ => None
  }

  function Must(hs: Hs, r: nat): Option<Event> { if hs.state.Client? then ClientMust(hs, r) else ServerMust(hs, r) }

  /** The events that may happen without having to. */
  predicate ClientOptional(hs: Hs, e: Event) {
    match e
    case Got(HelloVerifyRequest) => hs.setup.dtls
    case SecondHello => hs.setup.dtls
    case EarlyCcs => hs.setup.earlyOffered
    case EarlyKeys => hs.setup.earlyOffered
    case Got(CertificateStatus) => !hs.session && hs.auth.statusExpected
    case Got(ServerKeyExchange) => !hs.session
    case Sent(Certificate) => !hs.session && hs.auth.certRequest
    case NoCertificateAlert => !hs.session && hs.auth.certRequest && hs.cipher.ssl3
    case Sent(CertificateVerify) => !hs.session && hs.auth.certRequest
    case Got(NewSessionTicket) => true
    case _ => false
  }

  predicate ServerOptional(hs: Hs, e: Event) {
    e == Got(Certificate) && !hs.session && hs.auth.certRequest
  }

  predicate Possible(hs: Hs, e: Event) {
    Must(hs, Rank(hs, e)) == Some(e) || if hs.state.Client? then ClientOptional(hs, e) else ServerOptional(hs, e)
  }

  // ----- what a run keeps -----

  /** A handshake and what it waits for. */
  datatype Machine = Machine(hs: Hs, wait: Wait)

  /** Everything of lesser rank is behind, everything of this rank or more ahead. */
  function ClientPosition(hs: Hs, c: ClientState, wait: Wait): nat {
    match c
    case StartConnect => 0
    case EnterEarlyData => 1
    case ReadHelloVerifyRequest => 1
    case ReadServerHello => 3
    case Tls13 => 4
    case ReadServerCertificate => 4
    case ReadCertificateStatus => 5
    case VerifyServerCertificate => 6
    case ReadServerKeyExchange => 6
    case ReadCertificateRequest => 7
    case ReadServerHelloDone => 8
    case SendClientCertificate => 9
    case SendClientKeyExchange => 10
    case SendClientCertificateVerify => 11
    case SendClientFinished => 12
    case FinishFlight => 17
    case ReadSessionTicket => if hs.session then 4 else 17
    case ProcessChangeCipherSpec =>
      (if hs.session then 5 else 18) + if wait == Wait.ReadChangeCipherSpec then 0 else 1
    case ReadServerFinished => if hs.session then 7 else 20
    case FinishClientHandshake => 21
    case Done => 22
  }

  function ServerPosition(hs: Hs, s: ServerState, wait: Wait): nat {
    match s
    case StartAccept => 0
    case ReadClientHello => 0
    case SelectCertificate => 0
    case Tls13 => 0
    case SelectParameters => 0
    case SendServerHello => 1
    case SendServerCertificate => 2
    case SendServerKeyExchange => 4
    case SendServerHelloDone => 5
    case ReadClientCertificate => 7
    case VerifyClientCertificate => 8
    case ReadClientKeyExchange => 8
    case ReadClientCertificateVerify => 9
    case ReadChangeCipherSpec => 10
    case ProcessChangeCipherSpec => if wait == Wait.ReadChangeCipherSpec then 10 else 11
    case ReadNextProto => 12
    case ReadChannelId => 13
    case ReadClientFinished => 14
    case SendServerFinished => if hs.session then 2 else 15
    case FinishServerHandshake => 19
    case Done => 20
  }

  function Position(hs: Hs, wait: Wait): nat {
    match hs.state case Client(c) => ClientPosition(hs, c, wait) case Server(s) => ServerPosition(hs, s, wait)
  }

  predicate Increasing(hs: Hs, es: seq<Event>) {
    forall i, j :: 0 <= i < j < |es| ==> Rank(hs, es[i]) < Rank(hs, es[j])
  }

  /** Flags that are set only by the message that goes with them. */
  predicate FlagsOk(hs: Hs, wait: Wait) {
    && (wait == Wait.ReadChangeCipherSpec ==>
          hs.state in {Client(ClientState.ProcessChangeCipherSpec), Server(ServerState.ProcessChangeCipherSpec)})
    && (hs.state.Client? && hs.auth.certRequest ==> Position(hs, wait) >= 8)
    && (hs.state.Client? && Position(hs, wait) >= 4 ==> !hs.setup.earlyOffered)
    && (hs.state.Server? && hs.auth.peerCert ==> Position(hs, wait) >= 8)
    && hs.state != Client(ClientState.Tls13) && hs.state != Server(ServerState.Tls13)
    && (hs.session ==> !FullOnly(hs.state))
    && (hs.state == Client(ReadHelloVerifyRequest) ==> hs.setup.dtls)
  }

  /** The states that a resumption never enters. */
  predicate FullOnly(state: State) {
    match state
    case Client(c) =>
      c.ReadServerCertificate? || c.ReadCertificateStatus? || c.VerifyServerCertificate? || c.ReadServerKeyExchange?
      || c.ReadCertificateRequest? || c.ReadServerHelloDone? || c.SendClientCertificate? || c.SendClientKeyExchange?
      || c.SendClientCertificateVerify?
    case Server(s) =>
      s.SendServerCertificate? || s.SendServerKeyExchange? || s.SendServerHelloDone? || s.ReadClientCertificate?
      || s.VerifyClientCertificate? || s.ReadClientKeyExchange? || s.ReadClientCertificateVerify?
  }

  /** The events so far stand in the order of the message flow; all of them may
      happen in it, and of those that must, the ones behind have happened. */
  ghost predicate Flow(hs: Hs, position: nat) {
    && Increasing(hs, hs.trace)
    && (forall e :: e in hs.trace ==> Possible(hs, e) && Rank(hs, e) < position)
    && (forall r: nat :: r < position && Must(hs, r).Some? ==> Must(hs, r).value in hs.trace)
  }

  /** After a failure the events so far are a part of the flow, too. */
  ghost predicate Good(m: Machine) {
    m.hs.tls13
    || if m.wait == Error then exists position: nat :: Flow(m.hs, position)
       else Flow(m.hs, Position(m.hs, m.wait)) && FlagsOk(m.hs, m.wait)
  }

  // ----- one call of a state's function -----

  /** What may happen and what must happen behind a position is the same in two
      states. */
  ghost predicate Settled(hs: Hs, hs': Hs, p: nat) {
    && hs'.state.Client? == hs.state.Client?
    && (forall e :: Possible(hs, e) && Rank(hs, e) < p ==> Possible(hs', e) && Rank(hs', e) == Rank(hs, e))
    && (forall r: nat :: r < p && Must(hs', r).Some? ==> Must(hs, r) == Must(hs', r))
  }

  /** Events at their places between two positions, with all that must happen
      there. */
  ghost predicate Between(hs: Hs, es: seq<Event>, p: nat, p': nat) {
    && p <= p' && Increasing(hs, es)
    && (forall e :: e in es ==> Possible(hs, e) && p <= Rank(hs, e) < p')
    && (forall r: nat :: p <= r < p' && Must(hs, r).Some? ==> Must(hs, r).value in es)
  }

  lemma Joined(hs: Hs, hs': Hs, t: seq<Event>, es: seq<Event>, position: nat)
    requires Increasing(hs, t) && forall e :: e in t ==> Rank(hs, e) < position && Rank(hs', e) == Rank(hs, e)
    requires Increasing(hs', es) && forall e :: e in es ==> position <= Rank(hs', e)
    ensures Increasing(hs', t + es)
  {
    hide Rank;
    var u := t + es;
    forall i, j | 0 <= i < j < |u| ensures Rank(hs', u[i]) < Rank(hs', u[j]) {
      assert i < |t| ==> u[i] == t[i] && t[i] in t;
      assert j < |t| ==> u[j] == t[j] && t[j] in t;
      assert i >= |t| ==> u[i] == es[i - |t|] && u[i] in es;
      assert j >= |t| ==> u[j] == es[j - |t|] && u[j] in es;
    }
  }

  /** A step forward keeps the flow. */
  lemma Forward(hs: Hs, hs': Hs, es: seq<Event>, p: nat, p': nat)
    requires Flow(hs, p) && Settled(hs, hs', p) && hs'.trace == hs.trace + es && Between(hs', es, p, p')
    ensures Flow(hs', p')
  {
    hide Possible, Must, Rank, Increasing;
    Joined(hs, hs', hs.trace, es, p);
    forall r: nat | r < p' && Must(hs', r).Some? ensures Must(hs', r).value in hs'.trace {
      assert r < p ==> Must(hs, r) == Must(hs', r);
    }
  }

  lemma MustRank(hs: Hs, r: nat)
    requires Must(hs, r).Some?
    ensures Rank(hs, Must(hs, r).value) == r
  {
  }

  /** The first n events between two positions lie before the next one. */
  lemma Prefix(hs: Hs, es: seq<Event>, n: nat, p: nat, p': nat)
    requires Between(hs, es, p, p') && n <= |es|
    ensures Between(hs, es[..n], p, if n < |es| then Rank(hs, es[n]) else p')
  {
    hide Must, Rank, Possible;
    if n < |es| {
      var q := Rank(hs, es[n]);
      assert es[n] in es;
      forall r: nat | p <= r < q && Must(hs, r).Some? ensures Must(hs, r).value in es[..n] {
        MustRank(hs, r);
        var k :| 0 <= k < |es| && es[k] == Must(hs, r).value;
        assert k < n;
        assert es[..n][k] == es[k];
      }
      forall e | e in es[..n] ensures Possible(hs, e) && p <= Rank(hs, e) < q {
        var k :| 0 <= k < n && es[k] == e;
        assert e in es;
      }
    } else {
      assert es[..n] == es;
    }
  }

  /** A failure after some of the events keeps the flow. */
  lemma Failed(hs: Hs, es: seq<Event>, done: nat, p: nat, p': nat) returns (q: nat)
    requires Flow(hs, p) && Between(hs, es, p, p')
    ensures Flow(Partly(hs, es, done).0, q)
  {
    var n := if done <= |es| then done else |es|;
    q := if n < |es| then Rank(hs, es[n]) else p';
    Prefix(hs, es, n, p, p');
    var hs' := Partly(hs, es, done).0;
    SameFlags(hs, hs.state, es[..n], p);
    SameBetween(hs, hs', es[..n], p, q);
    Forward(hs, hs', es[..n], p, q);
  }

  lemma SameRank(hs: Hs, hs': Hs)
    requires hs'.state.Client? == hs.state.Client? && hs'.session == hs.session
    ensures forall e :: Rank(hs', e) == Rank(hs, e)
  {
  }

  /** Moving on without changing what the handshake is about. */
  lemma SameFlags(hs: Hs, state: State, es: seq<Event>, p: nat)
    requires state.Client? == hs.state.Client?
    ensures Settled(hs, hs.(state := state, trace := hs.trace + es), p)
  {
    var hs' := hs.(state := state, trace := hs.trace + es);
    SameMeaning(hs, hs');
    hide Rank, Must, Possible;
  }

  // ----- building what lies between two positions -----

  lemma Nothing(hs: Hs, p: nat)
    ensures Between(hs, [], p, p)
  {
  }

  lemma Gap(hs: Hs, r: nat)
    requires Must(hs, r).None?
    ensures Between(hs, [], r, r + 1)
  {
    hide Must;
  }

  lemma One(hs: Hs, e: Event, r: nat)
    requires Possible(hs, e) && Rank(hs, e) == r && (Must(hs, r).Some? ==> Must(hs, r).value == e)
    ensures Between(hs, [e], r, r + 1)
  {
    hide Must, Rank, Possible;
  }

  lemma Maybe(hs: Hs, b: bool, e: Event, r: nat)
    requires Rank(hs, e) == r && Must(hs, r) == When(b, e)
    ensures Between(hs, If(b, e), r, r + 1)
  {
    hide Rank, Must;
    if b { One(hs, e, r); } else { Gap(hs, r); }
  }

  lemma Then(hs: Hs, es: seq<Event>, fs: seq<Event>, p: nat, q: nat, r: nat)
    requires Between(hs, es, p, q) && Between(hs, fs, q, r)
    ensures Between(hs, es + fs, p, r)
  {
    hide Must, Rank, Possible;
    Joined(hs, hs, es, fs, q);
  }

  // ----- one step -----

  lemma SamePosition(hs: Hs, w: Wait)
    requires w != Wait.ReadChangeCipherSpec
    ensures Position(hs, w) == Position(hs, Ok)
  {
  }

  /** Nothing happens: the handshake waits, or fails. */
  lemma Stays(hs: Hs, w: Wait)
    requires Good(Machine(hs, Ok)) && w != Wait.ReadChangeCipherSpec
    ensures Good(Machine(hs, w))
  {
    hide Position, Rank, Possible, Must;
    SamePosition(hs, w);
  }

  lemma Fails(hs: Hs, es: seq<Event>, done: nat, p: nat, p': nat)
    requires Good(Machine(hs, Ok)) && !hs.tls13 && p == Position(hs, Ok) && Between(hs, es, p, p')
    ensures Good(Machine(Partly(hs, es, done).0, Error))
  {
    hide Position, Rank, Possible, Must, Between;
    var q := Failed(hs, es, done, p, p');
  }

  /** A step that changes what the handshake is about only ahead. */
  lemma Changes(hs: Hs, hs': Hs, w: Wait, es: seq<Event>)
    requires Good(Machine(hs, Ok)) && !hs.tls13 && w != Error && hs'.trace == hs.trace + es
    requires Settled(hs, hs', Position(hs, Ok)) && Between(hs', es, Position(hs, Ok), Position(hs', w))
    requires FlagsOk(hs', w)
    ensures Good(Machine(hs', w))
  {
    hide Position, Rank, Possible, Must, Between, Settled;
    Forward(hs, hs', es, Position(hs, Ok), Position(hs', w));
  }

  lemma SameBetween(hs: Hs, hs': Hs, es: seq<Event>, p: nat, p': nat)
    requires hs'.state.Client? == hs.state.Client? && hs' == hs.(state := hs'.state, trace := hs'.trace)
    requires Between(hs, es, p, p')
    ensures Between(hs', es, p, p')
  {
    SameMeaning(hs, hs');
    hide Rank, Must, Possible;
  }

  lemma SameMust(hs: Hs, hs': Hs)
    requires hs'.state.Client? == hs.state.Client? && hs' == hs.(state := hs'.state, trace := hs'.trace)
    ensures forall r: nat :: Must(hs', r) == Must(hs, r)
  {
  }

  lemma SameMeaning(hs: Hs, hs': Hs)
    requires hs'.state.Client? == hs.state.Client? && hs' == hs.(state := hs'.state, trace := hs'.trace)
    ensures forall r: nat :: Must(hs', r) == Must(hs, r)
    ensures forall e :: Rank(hs', e) == Rank(hs, e)
    ensures forall e :: Possible(hs', e) == Possible(hs, e)
  {
    SameRank(hs, hs');
    SameMust(hs, hs');
    hide Rank, Must;
  }

  /** A step that changes only the state. */
  lemma Moves(hs: Hs, hs': Hs, w: Wait, es: seq<Event>)
    requires Good(Machine(hs, Ok)) && !hs.tls13 && w != Error && hs'.state.Client? == hs.state.Client?
    requires hs' == hs.(state := hs'.state, trace := hs.trace + es)
    requires Between(hs, es, Position(hs, Ok), Position(hs', w)) && FlagsOk(hs', w)
    ensures Good(Machine(hs', w))
  {
    hide Position, Rank, Possible, Must, Between, Settled, Flow, FlagsOk;
    SameFlags(hs, hs'.state, es, Position(hs, Ok));
    SameBetween(hs, hs', es, Position(hs, Ok), Position(hs', w));
    Changes(hs, hs', w, es);
  }
}
