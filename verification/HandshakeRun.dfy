/** Whole handshakes: the dispatch loops, the driver that resolves what they wait
    for (handshake.cc:491-628), and what holds over every run, with any pauses and
    retries. Sections 7.1, 7.3 and 7.4.9 of RFC 5246. */
module HandshakeRun {
  import opened Wrappers
  import opened HandshakeTypes
  import opened HandshakeOrder
  import opened HandshakeSteps
  import C = HandshakeClient
  import S = HandshakeServer

  predicate IsDone(hs: Hs) { hs.state == Client(ClientState.Done) || hs.state == Server(ServerState.Done) }

  /** One call of the current state's function. */
  function Do(hs: Hs, i: In): (Hs, Wait) {
    if hs.state.Client? then C.Do(hs, i) else S.Do(hs, i)
  }

  lemma DoAdvances(hs: Hs, i: In)
    requires !IsDone(hs)
    ensures Advances(hs, Do(hs, i))
  {
    hide Advances, C.Do, S.Do;
    if hs.state.Client? { C.DoAdvances(hs, i); } else { S.DoAdvances(hs, i); }
  }

  predicate ForTransport(w: Wait) {
    w == Flush || w == Wait.ReadServerHello || w == ReadMessage || w == Wait.ReadChangeCipherSpec
  }

  /** The waits that are for the application. */
  predicate Pauses(w: Wait) {
    w in {CertificateSelectionPending, Handoff, X509Lookup, ChannelIdLookup, PrivateKeyOperation, PendingSession,
          PendingTicket, EarlyDataRejected, CertificateVerifyPending}
  }

  /** What ssl_run_handshake does about a wait; answer says that the transport has
      done what was asked for (or that early data is still being read). A
      ChangeCipherSpec that was waited for has then been opened. */
  function Resolve(m: Machine, answer: bool): Machine {
    match m.wait
    case Ok => m
    case Error => m
    case EarlyDataRejected => m
    case Flush => if answer then m.(wait := Ok) else m
    case ReadServerHello => if answer then m.(wait := Ok) else m
    case ReadMessage => if answer then m.(wait := Ok) else m
    case ReadChangeCipherSpec => if answer then Machine(Log(m.hs, [OpenedCcs]), Ok) else m
    case ReadEndOfEarlyData => if answer then m else m.(wait := Ok)
    case _ => m.(wait := Ok)
  }

  /** One step of a run: a wait is resolved, or a state's function is called. */
  function Step(m: Machine, i: In): Machine {
    if m.wait != Ok then Resolve(m, i.answer)
    else if IsDone(m.hs) then m
    else Machine(Do(m.hs, i).0, Do(m.hs, i).1)
  }

  function Steps(m: Machine, ins: seq<In>): Machine {
    if ins == [] then m else Step(Steps(m, ins[..|ins|-1]), ins[|ins|-1])
  }

  lemma {:induction false} StepsAppend(m: Machine, ins: seq<In>, more: seq<In>)
    ensures Steps(m, ins + more) == Steps(Steps(m, ins), more)
    decreases |more|
  {
    if more == [] {
      assert ins + more == ins;
    } else {
      StepsAppend(m, ins, more[..|more|-1]);
      assert (ins + more)[..|ins + more|-1] == ins + more[..|more|-1];
    }
  }

  // ----- every step keeps the flow -----

  lemma ClientKeeps(hs: Hs, i: In)
    requires Running(hs) && hs.state.Client?
    ensures Kept(C.Do(hs, i))
  {
    hide Good, Flow, C.DoStartConnect, C.DoEnterEarlyData, C.DoReadHelloVerifyRequest, C.DoReadServerHello, C.DoTls13,
         C.DoReadServerCertificate, C.DoReadCertificateStatus, C.DoVerifyServerCertificate, C.DoReadServerKeyExchange,
         C.DoReadCertificateRequest, C.DoReadServerHelloDone, C.DoSendClientCertificate, C.DoSendClientKeyExchange,
         C.DoSendClientCertificateVerify, C.DoSendClientFinished, C.DoFinishFlight, C.DoReadSessionTicket,
         C.DoProcessChangeCipherSpec, C.DoReadServerFinished, C.DoFinishClientHandshake;
    FlagsOf(hs);
    match hs.state.c
    case StartConnect => ClientStartConnect(hs, i);
    case EnterEarlyData => ClientEnterEarlyData(hs, i);
    case ReadHelloVerifyRequest => ClientReadHelloVerifyRequest(hs, i);
    case ReadServerHello => ClientReadServerHello(hs, i);
    case Tls13 => assert false;
    case ReadServerCertificate => ClientReadServerCertificate(hs, i);
    case ReadCertificateStatus => ClientReadCertificateStatus(hs, i);
    case VerifyServerCertificate => ClientVerifyServerCertificate(hs, i);
    case ReadServerKeyExchange => ClientReadServerKeyExchange(hs, i);
    case ReadCertificateRequest => ClientReadCertificateRequest(hs, i);
    case ReadServerHelloDone => ClientReadServerHelloDone(hs, i);
    case SendClientCertificate => ClientSendClientCertificate(hs, i);
    case SendClientKeyExchange => ClientSendClientKeyExchange(hs, i);
    case SendClientCertificateVerify => ClientSendClientCertificateVerify(hs, i);
    case SendClientFinished => ClientSendClientFinished(hs, i);
    case FinishFlight => ClientFinishFlight(hs, i);
    case ReadSessionTicket => ClientReadSessionTicket(hs, i);
    case ProcessChangeCipherSpec => ClientProcessChangeCipherSpec(hs, i);
    case ReadServerFinished => ClientReadServerFinished(hs, i);
    case FinishClientHandshake => ClientFinishClientHandshake(hs, i);
    case Done => Stays(hs, Ok);
  }

  lemma ServerKeeps(hs: Hs, i: In)
    requires Running(hs) && hs.state.Server?
    ensures Kept(S.Do(hs, i))
  {
    hide Good, Flow, S.DoStartAccept, S.DoReadClientHello, S.DoSelectCertificate, S.DoTls13, S.DoSelectParameters,
         S.DoSendServerHello, S.DoSendServerCertificate, S.DoSendServerKeyExchange, S.DoSendServerHelloDone,
         S.DoReadClientCertificate, S.DoVerifyClientCertificate, S.DoReadClientKeyExchange,
         S.DoReadClientCertificateVerify, S.DoReadChangeCipherSpec, S.DoProcessChangeCipherSpec,
         S.DoReadNextProto, S.DoReadChannelId, S.DoReadClientFinished, S.DoSendServerFinished,
         S.DoFinishServerHandshake;
    FlagsOf(hs);
    match hs.state.s
    case StartAccept => ServerStartAccept(hs, i);
    case ReadClientHello => ServerReadClientHello(hs, i);
    case SelectCertificate => ServerSelectCertificate(hs, i);
    case Tls13 => assert false;
    case SelectParameters => ServerSelectParameters(hs, i);
    case SendServerHello => ServerSendServerHello(hs, i);
    case SendServerCertificate => ServerSendServerCertificate(hs, i);
    case SendServerKeyExchange => ServerSendServerKeyExchange(hs, i);
    case SendServerHelloDone => ServerSendServerHelloDone(hs, i);
    case ReadClientCertificate => ServerReadClientCertificate(hs, i);
    case VerifyClientCertificate => ServerVerifyClientCertificate(hs, i);
    case ReadClientKeyExchange => ServerReadClientKeyExchange(hs, i);
    case ReadClientCertificateVerify => ServerReadClientCertificateVerify(hs, i);
    case ReadChangeCipherSpec => ServerReadChangeCipherSpec(hs, i);
    case ProcessChangeCipherSpec => ServerProcessChangeCipherSpec(hs, i);
    case ReadNextProto => ServerReadNextProto(hs, i);
    case ReadChannelId => ServerReadChannelId(hs, i);
    case ReadClientFinished => ServerReadClientFinished(hs, i);
    case SendServerFinished => ServerSendServerFinished(hs, i);
    case FinishServerHandshake => ServerFinishServerHandshake(hs, i);
    case Done => Stays(hs, Ok);
  }

  lemma CcsPosition(hs: Hs)
    requires FlagsOk(hs, Wait.ReadChangeCipherSpec)
    ensures Position(hs, Ok) == Position(hs, Wait.ReadChangeCipherSpec) + 1
    ensures Rank(hs, OpenedCcs) == Position(hs, Wait.ReadChangeCipherSpec)
    ensures Must(hs, Rank(hs, OpenedCcs)) == Some(OpenedCcs)
    ensures FlagsOk(hs, Ok)
  {
  }

  lemma OtherPosition(hs: Hs, w: Wait)
    requires w != Wait.ReadChangeCipherSpec && FlagsOk(hs, w)
    ensures Position(hs, Ok) == Position(hs, w) && FlagsOk(hs, Ok)
  {
  }

  /** A ChangeCipherSpec that has been opened. */
  lemma CcsOpened(hs: Hs)
    requires Good(Machine(hs, Wait.ReadChangeCipherSpec)) && !hs.tls13
    ensures Good(Machine(Log(hs, [OpenedCcs]), Ok))
  {
    hide Position, Rank, Must, FlagsOk, Between, Settled, Flow;
    var hs' := Log(hs, [OpenedCcs]);
    var p := Position(hs, Wait.ReadChangeCipherSpec);
    CcsPosition(hs);
    SameFlags(hs, hs.state, [OpenedCcs], p);
    One(hs, OpenedCcs, p);
    SameBetween(hs, hs', [OpenedCcs], p, p + 1);
    Forward(hs, hs', [OpenedCcs], p, p + 1);
    SamePlace(hs, [OpenedCcs]);
  }

  lemma SamePlace(hs: Hs, es: seq<Event>)
    ensures Position(Log(hs, es), Ok) == Position(hs, Ok) && (FlagsOk(hs, Ok) ==> FlagsOk(Log(hs, es), Ok))
  {
  }

  lemma ResolveKeepsGood(m: Machine, answer: bool)
    requires Good(m)
    ensures Good(Resolve(m, answer)) && Resolve(m, answer).hs.state == m.hs.state
  {
    hide Position, FlagsOk, Flow;
    if m.hs.tls13 {
    } else if m.wait == Wait.ReadChangeCipherSpec {
      if answer { CcsOpened(m.hs); }
    } else if m.wait != Error {
      OtherPosition(m.hs, m.wait);
    }
  }

  lemma StepKeepsGood(m: Machine, i: In)
    requires Good(m)
    ensures Good(Step(m, i))
  {
    hide Position, FlagsOk, Flow, C.Do, S.Do;
    if m.wait != Ok {
      ResolveKeepsGood(m, i.answer);
    } else if !IsDone(m.hs) && m.hs.tls13 {
      DoAdvances(m.hs, i);
    } else if !IsDone(m.hs) {
      if m.hs.state.Client? { ClientKeeps(m.hs, i); } else { ServerKeeps(m.hs, i); }
    }
  }

  function Start(server: bool, dtls: bool, renegotiation: bool, offered: bool): Machine {
    Machine(NewHs(server, dtls, renegotiation, offered), Ok)
  }

  lemma StartGood(server: bool, dtls: bool, renegotiation: bool, offered: bool)
    ensures Good(Start(server, dtls, renegotiation, offered))
  {
  }

  /** A run: any start, and any decisions of the environment. */
  function RunFrom(server: bool, dtls: bool, renegotiation: bool, offered: bool, ins: seq<In>): Machine {
    Steps(Start(server, dtls, renegotiation, offered), ins)
  }

  lemma {:induction false} StepsKeepGood(m: Machine, ins: seq<In>)
    requires Good(m)
    ensures Good(Steps(m, ins))
  {
    hide Good, Step;
    if ins != [] {
      StepsKeepGood(m, ins[..|ins|-1]);
      StepKeepsGood(Steps(m, ins[..|ins|-1]), ins[|ins|-1]);
    }
  }

  // ----- the order of events over every run -----

  /** In a flow, what must happen before an event has happened before it, once. */
  lemma Precedes(hs: Hs, position: nat, e: Event, l: nat) returns (k: nat)
    requires Flow(hs, position) && l < |hs.trace|
    requires Must(hs, Rank(hs, e)) == Some(e) && Rank(hs, e) < Rank(hs, hs.trace[l])
    ensures k < l && hs.trace[k] == e && forall j :: 0 <= j < |hs.trace| && hs.trace[j] == e ==> j == k
  {
    hide Rank, Must, Possible;
    assert hs.trace[l] in hs.trace;
    assert e in hs.trace;
    k :| 0 <= k < |hs.trace| && hs.trace[k] == e;
  }

  /** The first of the two happens exactly once before the second. */
  ghost predicate OnceBefore(trace: seq<Event>, e: Event, f: Event) {
    forall l :: 0 <= l < |trace| && trace[l] == f ==>
      exists k :: 0 <= k < l && trace[k] == e && forall j :: 0 <= j < |trace| && trace[j] == e ==> j == k
  }

  ghost predicate AtMostOnce(trace: seq<Event>, e: Event) {
    forall i, j :: 0 <= i < j < |trace| && trace[i] == e ==> trace[j] != e
  }

  /** Nothing in a flow happens twice. */
  lemma FlowHasNoTwice(hs: Hs, position: nat, e: Event)
    requires Flow(hs, position)
    ensures AtMostOnce(hs.trace, e)
  {
    hide Rank, Must, Possible;
  }

  lemma FlowOnceBefore(hs: Hs, position: nat, e: Event, f: Event)
    requires Flow(hs, position) && Must(hs, Rank(hs, e)) == Some(e) && Rank(hs, e) < Rank(hs, f)
    ensures OnceBefore(hs.trace, e, f)
  {
    hide Rank, Must, Flow;
    forall l | 0 <= l < |hs.trace| && hs.trace[l] == f
      ensures exists k :: 0 <= k < l && hs.trace[k] == e
                          && forall j :: 0 <= j < |hs.trace| && hs.trace[j] == e ==> j == k
    {
      var k := Precedes(hs, position, e, l);
    }
  }

  lemma GoodIsFlow(m: Machine) returns (position: nat)
    requires Good(m) && !m.hs.tls13
    ensures Flow(m.hs, position)
  {
    hide Position, FlagsOk, Flow;
    if m.wait == Error { position :| Flow(m.hs, position); } else { position := Position(m.hs, m.wait); }
  }

  /** Section 7.1 of RFC 5246, over every run up to TLS 1.2, finished or not: the
      read and the write keys change at most once each; the read keys after the
      peer's ChangeCipherSpec was opened and before its Finished is accepted, the
      write keys after our ChangeCipherSpec and before our Finished. */
  lemma KeysChangeInOrder(server: bool, dtls: bool, renegotiation: bool, offered: bool, ins: seq<In>)
    requires !RunFrom(server, dtls, renegotiation, offered, ins).hs.tls13
    ensures var trace := RunFrom(server, dtls, renegotiation, offered, ins).hs.trace;
            && AtMostOnce(trace, ReadKeys) && AtMostOnce(trace, WriteKeys)
            && OnceBefore(trace, OpenedCcs, ReadKeys) && OnceBefore(trace, ReadKeys, Got(Finished))
            && OnceBefore(trace, SentCcs, WriteKeys) && OnceBefore(trace, WriteKeys, Sent(Finished))
  {
    hide Flow, Good, OnceBefore, AtMostOnce, Steps;
    var m := RunFrom(server, dtls, renegotiation, offered, ins);
    StartGood(server, dtls, renegotiation, offered);
    StepsKeepGood(Start(server, dtls, renegotiation, offered), ins);
    var p := GoodIsFlow(m);
    FlowHasNoTwice(m.hs, p, ReadKeys);
    FlowHasNoTwice(m.hs, p, WriteKeys);
    FlowOnceBefore(m.hs, p, OpenedCcs, ReadKeys);
    FlowOnceBefore(m.hs, p, ReadKeys, Got(Finished));
    FlowOnceBefore(m.hs, p, SentCcs, WriteKeys);
    FlowOnceBefore(m.hs, p, WriteKeys, Sent(Finished));
  }

  /** Section 7.3 of RFC 5246: in a full handshake the client's Finished comes
      first, in a resumption the server's; on either side. */
  lemma FinishedInOrder(server: bool, dtls: bool, renegotiation: bool, offered: bool, ins: seq<In>)
    requires !RunFrom(server, dtls, renegotiation, offered, ins).hs.tls13
    ensures var hs := RunFrom(server, dtls, renegotiation, offered, ins).hs;
            if server == hs.session then OnceBefore(hs.trace, Sent(Finished), Got(Finished))
            else OnceBefore(hs.trace, Got(Finished), Sent(Finished))
  {
    hide Flow, Good, OnceBefore, Steps;
    var m := RunFrom(server, dtls, renegotiation, offered, ins);
    StartGood(server, dtls, renegotiation, offered);
    StepsKeepGood(Start(server, dtls, renegotiation, offered), ins);
    StepsKeepSide(Start(server, dtls, renegotiation, offered), ins);
    var p := GoodIsFlow(m);
    if server == m.hs.session {
      FlowOnceBefore(m.hs, p, Sent(Finished), Got(Finished));
    } else {
      FlowOnceBefore(m.hs, p, Got(Finished), Sent(Finished));
    }
  }

  lemma {:induction false} StepsKeepSide(m: Machine, ins: seq<In>)
    ensures Steps(m, ins).hs.state.Client? == m.hs.state.Client?
    ensures Progress(Steps(m, ins).hs) >= Progress(m.hs)
  {
    hide Do;
    if ins != [] {
      var m' := Steps(m, ins[..|ins|-1]);
      StepsKeepSide(m, ins[..|ins|-1]);
      if !IsDone(m'.hs) { DoAdvances(m'.hs, ins[|ins|-1]); }
    }
  }

  /** A finished handshake went through the whole message flow of its kind, in
      order: every event that must happen did, every event that did may, and there
      was no early data. */
  lemma FinishedIsComplete(server: bool, dtls: bool, renegotiation: bool, offered: bool, ins: seq<In>)
    requires var m := RunFrom(server, dtls, renegotiation, offered, ins); !m.hs.tls13 && m.wait == Ok && IsDone(m.hs)
    ensures var hs := RunFrom(server, dtls, renegotiation, offered, ins).hs;
            && Increasing(hs, hs.trace) && EarlyCcs !in hs.trace && EarlyKeys !in hs.trace
            && (forall e :: e in hs.trace ==> Possible(hs, e))
            && (forall r: nat :: Must(hs, r).Some? ==> Must(hs, r).value in hs.trace)
  {
    hide Steps;
    var m := RunFrom(server, dtls, renegotiation, offered, ins);
    StartGood(server, dtls, renegotiation, offered);
    StepsKeepGood(Start(server, dtls, renegotiation, offered), ins);
    NoMustBeyond(m.hs);
    NoEarly(m.hs);
    hide Must, Possible, Rank;
  }

  lemma NoMustBeyond(hs: Hs)
    requires IsDone(hs)
    ensures forall r: nat :: Must(hs, r).Some? ==> r < Position(hs, Ok)
  {
  }

  lemma NoEarly(hs: Hs)
    requires IsDone(hs) && FlagsOk(hs, Ok)
    ensures !Possible(hs, EarlyCcs) && !Possible(hs, EarlyKeys)
  {
  }

  // ----- the loops -----

  /** reason is what ssl_run_handshake puts into rwstate. */
  datatype Return = Completed | EarlyReturned | Blocked | Paused(reason: Wait) | Broken

  /** A connection in its handshake. What the loops do is the run of steps that they
      give back. */
  class Connection {
    var hs: Hs
    var wait: Wait

    function Value(): Machine
      reads this
    {
      Machine(hs, wait)
    }

    constructor (server: bool, dtls: bool, renegotiation: bool, offered: bool)
      ensures Value() == Start(server, dtls, renegotiation, offered)
    {
      hs, wait := NewHs(server, dtls, renegotiation, offered), Ok;
    }

    /** ssl_client_handshake and ssl_server_handshake. The loop ends because the
        handshake goes forward with every call that does not wait or fail. */
    method Handshake() returns (ret: Wait, ghost ins: seq<In>)
      requires wait == Ok
      modifies this`hs
      ensures Machine(hs, ret) == Steps(old(Value()), ins)
      ensures |ins| <= LAST + 1 && (ret == Ok ==> IsDone(hs))
    {
      hide Do, Progress;
      ins := [];
      ret := Ok;
      ghost var first := Progress(hs);
      while !IsDone(hs)
        invariant Machine(hs, Ok) == Steps(old(Value()), ins)
        invariant ret == Ok && |ins| <= Progress(hs) - first
        decreases LAST - Progress(hs)
      {
        var i: In := *;
        var result := Do(hs, i);
        DoAdvances(hs, i);
        AppendOne(old(Value()), ins, i);
        ins := ins + [i];
        hs := result.0;
        ret := result.1;
        if ret != Ok { return; }
      }
    }

    /** What is done about the wait, once the transport has answered. */
    method ResolveWait(answer: bool) returns (ghost i: In)
      requires wait != Ok
      modifies this
      ensures i.answer == answer && Value() == Step(old(Value()), i)
    {
      hide Do;
      i := *;
      i := i.(answer := answer);
      if ForTransport(wait) {
        if answer {
          if wait == Wait.ReadChangeCipherSpec { hs := Log(hs, [OpenedCcs]); }
          wait := Ok;
        }
      } else if wait == ReadEndOfEarlyData {
        if !answer { wait := Ok; }
      } else if wait != Error && wait != EarlyDataRejected {
        wait := Ok;
      }
    }

    /** ssl_run_handshake. The transport does what it is asked for at most so many
        times before it blocks or fails. */
    method RunHandshake(arrivals: nat) returns (ret: Return, ghost ins: seq<In>)
      modifies this
      ensures Value() == Steps(old(Value()), ins)
      ensures ret == Completed ==> wait == Ok && IsDone(hs)
      ensures ret == Broken <==> wait == Error
      ensures ret == Blocked ==> ForTransport(wait)
      ensures ret.Paused? ==> Pauses(ret.reason) && wait == if ret.reason == EarlyDataRejected then EarlyDataRejected
              else Ok
      ensures ret == EarlyReturned ==> wait == ReadEndOfEarlyData
                                       || (ins != [] && Steps(old(Value()), ins[..|ins|-1]).wait == EarlyReturn)
      ensures ret.Paused? && ret.reason != EarlyDataRejected ==>
                ins != [] && Steps(old(Value()), ins[..|ins|-1]).wait == ret.reason
    {
      hide Steps, Step, Do;
      ins := [];
      NoSteps(Value());
      var left: nat := arrivals;
      while true
        invariant Value() == Steps(old(Value()), ins) && left >= 0
        decreases left, if wait == Ok then 1 else 0
      {
        if wait == Error { return Broken, ins; }
        if wait == EarlyDataRejected { return Paused(wait), ins; }
        if wait != Ok {
          var asked := wait;
          var answer: bool := *;
          if ForTransport(asked) {
            if left == 0 || !answer { return Blocked, ins; }
          } else if asked == ReadEndOfEarlyData {
            if left == 0 || answer { return EarlyReturned, ins; }
          }
          if left > 0 { left := left - 1; }
          ghost var m := Value();
          ghost var i := ResolveWait(answer);
          AppendOne(old(Value()), ins, i);
          ins := ins + [i];
          if !ForTransport(asked) && asked != ReadEndOfEarlyData {
            StillGoing(m, i);
            return if asked == EarlyReturn then EarlyReturned else Paused(asked), ins;
          }
          Resolved(m, i);
        }
        var w, more := Handshake();
        StepsAppend(old(Value()), ins, more);
        ins := ins + more;
        wait := w;
        if w == Error { return Broken, ins; }
        if w == Ok { return Completed, ins; }
      }
    }
  }

  lemma NoSteps(m: Machine)
    ensures Steps(m, []) == m
  {
  }

  lemma AppendOne(m: Machine, ins: seq<In>, i: In)
    ensures Steps(m, ins + [i]) == Step(Steps(m, ins), i)
  {
    assert (ins + [i])[..|ins|] == ins;
  }

  /** A wait that was answered is over. */
  lemma Resolved(m: Machine, i: In)
    requires (ForTransport(m.wait) && i.answer) || (m.wait == ReadEndOfEarlyData && !i.answer)
    ensures Step(m, i).wait == Ok
  {
  }

  lemma StillGoing(m: Machine, i: In)
    requires m.wait == EarlyReturn || (Pauses(m.wait) && m.wait != EarlyDataRejected)
    ensures Step(m, i).wait == Ok
  {
  }
}
