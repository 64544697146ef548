/** What the verdicts of the environment mean for whole runs: every message taken
    passed its checks, no handshake goes on past a certificate that was not
    verified, and every handshake in which nothing is wrong completes. */
module HandshakeVerdicts {
  import opened Wrappers
  import opened HandshakeTypes
  import opened HandshakeOrder
  import opened HandshakeRun
  import opened HandshakeChecks
  import C = HandshakeClient
  import S = HandshakeServer

  lemma DoObeys(hs: Hs, i: In)
    requires !IsDone(hs)
    ensures Obeys(hs, i, HandshakeRun.Do(hs, i))
  {
    hide Obeys, C.Do, S.Do;
    if hs.state.Client? { ClientObeys(hs, i); } else { ServerObeys(hs, i); }
  }

  // ----- one step -----

  /** A step that takes a message found it in the state that reads it, and unless it
      ends in an error, the message passed its checks. Nothing that happened is
      undone. */
  lemma StepChecked(m: Machine, i: In)
    ensures m.hs.trace <= Step(m, i).hs.trace
    ensures forall x :: Got(x) in Step(m, i).hs.trace && Got(x) !in m.hs.trace ==>
              m.wait == Ok && Reads(m.hs.state) == Some(x) && i.msg.Some? && (x == ClientHello || i.msg == Some(x))
              && (Step(m, i).wait != Error ==> i.ok)
  {
    hide Reads, HandshakeRun.Do, Answered, GoesOn, Settles, PassesThrough;
    if m.wait == Ok && !IsDone(m.hs) { DoObeys(m.hs, i); }
  }

  /** A certificate is verified by the callback alone: its failure is an error, and
      only its success goes on. */
  lemma VerificationDecides(m: Machine, i: In)
    requires m.wait == Ok && Verifying(m.hs)
    ensures match i.callback
            case Failure => Step(m, i) == Machine(m.hs, Error)
            case Retry => Step(m, i).hs == m.hs && Step(m, i).wait !in {Ok, Error}
            case Success => Step(m, i).wait == Ok && Step(m, i).hs.state != m.hs.state
  {
    hide HandshakeRun.Do, Checked, GoesOn, Settles, PassesThrough;
    DoObeys(m.hs, i);
  }

  /** What a step agrees on or settles is what the peer's message and the
      configuration say, and no other step changes it. */
  lemma StepAgrees(m: Machine, i: In)
    requires m.wait == Ok && !IsDone(m.hs)
    requires m.hs.state != Client(ClientState.Tls13) && m.hs.state != Server(ServerState.Tls13)
    ensures var r := Step(m, i);
            if m.hs.state.Client? then ClientAgrees(m.hs, i, (r.hs, r.wait)) else ServerAgrees(m.hs, i, (r.hs, r.wait))
  {
    hide ClientAgrees, ServerAgrees, C.Do, S.Do;
    if m.hs.state.Client? { ClientDoAgrees(m.hs, i); } else { ServerDoAgrees(m.hs, i); }
  }

  /** A state that takes a message waits for it, and refuses a wrong or a bad one. */
  lemma StepRefuses(m: Machine, i: In)
    requires m.wait == Ok && Expects(m.hs)
    ensures i.msg.None? ==> Step(m, i).hs == m.hs && Step(m, i).wait in {ReadMessage, Wait.ReadServerHello}
    ensures Misplaced(m.hs, i) && m.hs.state != Server(SelectParameters) ==> Step(m, i).wait == Error
    ensures i.msg == Reads(m.hs.state) && !i.ok && !i.callback.Retry? && i.lookup.None? && !i.handoff ==>
              Step(m, i).wait == Error
  {
    hide HandshakeRun.Do, Checked, Answered, GoesOn, Settles, PassesThrough, MayLeaveOut;
    DoObeys(m.hs, i);
  }

  /** A wait for the transport lasts until the transport has done what it was asked
      for, a failure for ever; a pause is over with the next call. Only an opened
      ChangeCipherSpec leaves a trace. */
  lemma WaitsAsAsked(m: Machine, i: In)
    requires m.wait != Ok
    ensures m.wait in {Flush, Wait.ReadServerHello, ReadMessage} ==>
              Step(m, i) == if i.answer then Machine(m.hs, Ok) else m
    ensures m.wait == Wait.ReadChangeCipherSpec ==>
              Step(m, i) == if i.answer then Machine(Log(m.hs, [OpenedCcs]), Ok) else m
    ensures m.wait in {Error, EarlyDataRejected} ==> Step(m, i) == m
    ensures m.wait in {X509Lookup, ChannelIdLookup, PrivateKeyOperation, PendingSession, PendingTicket,
                       CertificateSelectionPending, CertificateVerifyPending, Handoff, EarlyReturn} ==>
              Step(m, i) == Machine(m.hs, Ok)
  {
  }

  lemma ErrorStays(m: Machine, i: In)
    requires m.wait == Error
    ensures Step(m, i) == m
  {
  }

  // ----- whole runs -----

  lemma LastStep(m: Machine, ins: seq<In>)
    requires ins != []
    ensures Steps(m, ins) == Step(Steps(m, ins[..|ins|-1]), ins[|ins|-1])
  {
  }

  /** A message that was taken in a run that has not failed was taken by a step whose
      checks it passed. */
  lemma {:induction false} GotChecked(m: Machine, ins: seq<In>, x: Msg) returns (k: nat)
    requires Got(x) in Steps(m, ins).hs.trace && Got(x) !in m.hs.trace
    ensures k < |ins|
    ensures var a := Steps(m, ins[..k]);
            && a.wait == Ok && Reads(a.hs.state) == Some(x) && ins[k].msg.Some?
            && (x == ClientHello || ins[k].msg == Some(x)) && (Steps(m, ins).wait != Error ==> ins[k].ok)
    ensures Got(x) !in Steps(m, ins[..k]).hs.trace && Got(x) in Steps(m, ins[..k+1]).hs.trace
  {
    hide Step, Reads;
    var n := |ins| - 1;
    var p := ins[..n];
    StepChecked(Steps(m, p), ins[n]);
    if Got(x) in Steps(m, p).hs.trace {
      k := GotChecked(m, p, x);
      assert p[..k] == ins[..k] && p[..k+1] == ins[..k+1];
      if Steps(m, p).wait == Error { ErrorStays(Steps(m, p), ins[n]); }
    } else {
      k := n;
      assert ins[..n+1] == ins;
    }
  }

  // ----- certificates -----

  /** Some step of the run asked for the verification and got a success. */
  ghost predicate VerifiedIn(m: Machine, ins: seq<In>) {
    exists k :: 0 <= k < |ins| && Steps(m, ins[..k]).wait == Ok && Verifying(Steps(m, ins[..k]).hs)
                && ins[k].callback.Success?
  }

  lemma VerifiedBefore(m: Machine, ins: seq<In>)
    requires ins != []
    ensures VerifiedIn(m, ins[..|ins|-1]) ==> VerifiedIn(m, ins)
    ensures var a := Steps(m, ins[..|ins|-1]);
            a.wait == Ok && Verifying(a.hs) && ins[|ins|-1].callback.Success? ==> VerifiedIn(m, ins)
  {
    hide Steps, Verifying;
    var p := ins[..|ins|-1];
    forall k | 0 <= k < |p| ensures p[..k] == ins[..k] {}
  }

  /** This is so once the handshake is past the state that verifies. */
  ghost predicate PastVerification(hs: Hs) {
    !hs.tls13 && !hs.session
    && if hs.state.Client? then Got(Certificate) in hs.trace && Progress(hs) > 7
       else hs.auth.peerCert && Progress(hs) > 10
  }

  /** The step that goes past it is the one that verifies. */
  lemma StepVerifies(m: Machine, i: In)
    requires Good(m) && PastVerification(Step(m, i).hs)
    ensures PastVerification(m.hs) || (m.wait == Ok && Verifying(m.hs) && i.callback.Success?)
  {
    hide Good, HandshakeRun.Do, GoesOn;
    if m.wait == Ok && !IsDone(m.hs) {
      DoObeys(m.hs, i);
      DoAdvances(m.hs, i);
      CertificateUsed(m);
    } else {
      ResolveSame(m, i);
    }
  }

  lemma ResolveSame(m: Machine, i: In)
    requires m.wait != Ok || IsDone(m.hs)
    ensures var h := Step(m, i).hs; h == m.hs.(trace := h.trace)
    ensures forall x :: Got(x) in Step(m, i).hs.trace ==> Got(x) in m.hs.trace
  {
  }

  /** A client that got a certificate is in a full handshake that uses one. */
  lemma CertificateUsed(m: Machine)
    requires Good(m) && !m.hs.tls13
    ensures m.hs.state.Client? && Got(Certificate) in m.hs.trace ==> m.hs.cipher.usesCert && !m.hs.session
    ensures m.hs.state.Server? && Got(Certificate) in m.hs.trace ==> !m.hs.session
    ensures m.wait != Error ==> m.hs.state != Client(ClientState.Tls13) && m.hs.state != Server(ServerState.Tls13)
  {
    hide Position, Increasing;
    var p := GoodIsFlow(m);
    if Got(Certificate) in m.hs.trace { assert Possible(m.hs, Got(Certificate)); }
  }

  lemma {:induction false} PastIsVerified(m: Machine, ins: seq<In>)
    requires Good(m) && !PastVerification(m.hs) && PastVerification(Steps(m, ins).hs)
    ensures VerifiedIn(m, ins)
  {
    hide Good, Step, PastVerification, VerifiedIn;
    var p := ins[..|ins|-1];
    StepsKeepGood(m, p);
    StepVerifies(Steps(m, p), ins[|ins|-1]);
    VerifiedBefore(m, ins);
    if PastVerification(Steps(m, p).hs) { PastIsVerified(m, p); }
  }

  /** A client that has a certificate and goes on to the end of the server's messages
      has had it verified. */
  lemma ServerCertificateVerified(dtls: bool, renegotiation: bool, offered: bool, ins: seq<In>)
    requires var hs := RunFrom(false, dtls, renegotiation, offered, ins).hs;
             !hs.tls13 && Got(Certificate) in hs.trace && Got(ServerHelloDone) in hs.trace
    ensures VerifiedIn(Start(false, dtls, renegotiation, offered), ins)
  {
    hide Good, Steps, VerifiedIn;
    var m := Start(false, dtls, renegotiation, offered);
    StartGood(false, dtls, renegotiation, offered);
    StepsKeepGood(m, ins);
    CertificateUsed(Steps(m, ins));
    StepsKeepSide(m, ins);
    var k := GotChecked(m, ins, ServerHelloDone);
    StepsKeepSide(m, ins[..k]);
    StepsAppend(m, ins[..k], ins[k..]);
    assert ins[..k] + ins[k..] == ins;
    StepsKeepSide(Steps(m, ins[..k]), ins[k..]);
    PastIsVerified(m, ins);
  }

  lemma {:induction false} CertificateStays(m: Machine, ins: seq<In>)
    requires m.hs.state.Server? && m.hs.auth.peerCert && Progress(m.hs) >= 10
    ensures Steps(m, ins).hs.auth.peerCert
  {
    hide Step;
    if ins != [] {
      var p, i := ins[..|ins|-1], ins[|ins|-1];
      CertificateStays(m, p);
      StepsKeepSide(m, p);
      StepKeepsCertificate(Steps(m, p), i);
    }
  }

  lemma StepKeepsCertificate(m: Machine, i: In)
    requires m.hs.state.Server? && Progress(m.hs) >= 10
    ensures Step(m, i).hs.auth.peerCert == m.hs.auth.peerCert
  {
    hide HandshakeRun.Do, Checked, Answered, GoesOn, PassesThrough;
    if m.wait == Ok && !IsDone(m.hs) { DoObeys(m.hs, i); }
  }

  /** The step that takes the client's certificate: one that is not empty is the
      client's. */
  lemma StepTakesCertificate(m: Machine, i: In)
    requires m.hs.state.Server? && Got(Certificate) in Step(m, i).hs.trace && Got(Certificate) !in m.hs.trace
    ensures Progress(m.hs) == 9 && Step(m, i).hs.auth.peerCert == i.certificate && Progress(Step(m, i).hs) >= 10
  {
    hide HandshakeRun.Do, Answered, GoesOn, PassesThrough;
    if m.wait == Ok && !IsDone(m.hs) { DoObeys(m.hs, i); } else { ResolveSame(m, i); }
  }

  /** A server that took a certificate and goes on past the client's key exchange has
      had it verified; and it completes only with the proof of its key. */
  lemma ClientCertificateVerified(dtls: bool, renegotiation: bool, offered: bool, ins: seq<In>, j: nat)
    requires j < |ins| && ins[j].certificate
    requires Got(Certificate) !in RunFrom(true, dtls, renegotiation, offered, ins[..j]).hs.trace
    requires Got(Certificate) in RunFrom(true, dtls, renegotiation, offered, ins[..j+1]).hs.trace
    requires var hs := RunFrom(true, dtls, renegotiation, offered, ins).hs;
             !hs.tls13 && Got(ClientKeyExchange) in hs.trace
    ensures VerifiedIn(Start(true, dtls, renegotiation, offered), ins)
    ensures var m := RunFrom(true, dtls, renegotiation, offered, ins);
            m.wait == Ok && IsDone(m.hs) ==> Got(CertificateVerify) in m.hs.trace
  {
    hide Good, Steps, Step, VerifiedIn, Possible, Increasing;
    var m := Start(true, dtls, renegotiation, offered);
    var end := Steps(m, ins);
    StartGood(true, dtls, renegotiation, offered);
    StepsKeepGood(m, ins);
    StepsKeepSide(m, ins);
    assert ins[..j+1][..j] == ins[..j];
    LastStep(m, ins[..j+1]);
    StepsKeepSide(m, ins[..j]);
    StepTakesCertificate(Steps(m, ins[..j]), ins[j]);
    Rest(m, ins, j + 1);
    StepsKeepSide(m, ins[..j+1]);
    CertificateStays(Steps(m, ins[..j+1]), ins[j+1..]);
    TraceGrows(Steps(m, ins[..j+1]), ins[j+1..]);
    CertificateUsed(end);
    var k := GotChecked(m, ins, ClientKeyExchange);
    Rest(m, ins, k);
    StepsKeepSide(m, ins[..k]);
    StepsKeepSide(Steps(m, ins[..k]), ins[k..]);
    PastIsVerified(m, ins);
    if end.wait == Ok && IsDone(end.hs) {
      FinishedIsComplete(true, dtls, renegotiation, offered, ins);
      assert Must(end.hs, 9) == Some(Got(CertificateVerify));
    }
  }

  lemma Rest(m: Machine, ins: seq<In>, k: nat)
    requires k <= |ins|
    ensures Steps(m, ins) == Steps(Steps(m, ins[..k]), ins[k..])
  {
    hide Steps;
    StepsAppend(m, ins[..k], ins[k..]);
    assert ins[..k] + ins[k..] == ins;
  }

  lemma {:induction false} TraceGrows(m: Machine, ins: seq<In>)
    ensures m.hs.trace <= Steps(m, ins).hs.trace
  {
    hide Step;
    if ins != [] {
      TraceGrows(m, ins[..|ins|-1]);
      StepChecked(Steps(m, ins[..|ins|-1]), ins[|ins|-1]);
    }
  }

  // ----- the ClientHello -----

  /** Some step of the run found a ClientHello that passed its checks. */
  ghost predicate HelloIn(m: Machine, ins: seq<In>) {
    exists k :: 0 <= k < |ins| && Steps(m, ins[..k]).wait == Ok && ReadsHello(Steps(m, ins[..k]).hs, ins[k])
  }

  predicate ReadsHello(hs: Hs, i: In) {
    hs.state == Server(ReadClientHello) && i.msg == Some(ClientHello) && i.ok && i.callback.Success?
  }

  lemma StepReadsHello(m: Machine, i: In)
    requires m.hs.state.Server? && Progress(Step(m, i).hs) > 1
    ensures Progress(m.hs) > 1 || (m.wait == Ok && ReadsHello(m.hs, i))
  {
    hide HandshakeRun.Do, Answered, GoesOn, Settles;
    if m.wait == Ok && !IsDone(m.hs) { DoObeys(m.hs, i); } else { ResolveSame(m, i); }
  }

  /** No server gets past that state without one. */
  lemma {:induction false} HelloRead(m: Machine, ins: seq<In>)
    requires m.hs.state.Server? && Progress(m.hs) <= 1 && Progress(Steps(m, ins).hs) > 1
    ensures HelloIn(m, ins)
  {
    hide Step, ReadsHello, Progress;
    var p := ins[..|ins|-1];
    StepsKeepSide(m, p);
    StepReadsHello(Steps(m, p), ins[|ins|-1]);
    forall k | 0 <= k < |p| ensures p[..k] == ins[..k] {}
    if Progress(Steps(m, p).hs) > 1 { HelloRead(m, p); }
  }

  // ----- resumption -----

  /** A handshake starts in its first state with nothing settled but what it was
      given, and a client with the session that it may offer. */
  lemma StartsClean(server: bool, dtls: bool, renegotiation: bool, offered: bool)
    ensures var m := Start(server, dtls, renegotiation, offered); var h := m.hs;
            && m.wait == Ok && h.trace == [] && !h.tls13 && Progress(h) == 0 && h.state.Server? == server
            && h.session == (offered && !server) && h.setup == Setup(dtls, renegotiation, false)
            && !h.auth.certRequest && !h.auth.peerCert && !h.auth.statusExpected
            && !h.ext.ticketExpected && !h.ext.nextProto && !h.ext.channelId
            && !h.cipher.ssl3 && !h.cipher.usesCert && !h.cipher.requiresSke && !h.cipher.params
  {
  }

  /** A client resumes only what it offered, and each side only what it found to be
      the same session when it took the peer's hello. */
  lemma StepSettlesSession(m: Machine, i: In)
    ensures var h := Step(m, i).hs;
            && (m.hs.state.Client? && h.session ==> m.hs.session)
            && h.setup.renegotiation == m.hs.setup.renegotiation
            && (m.hs.state == Client(StartConnect) && h.state != m.hs.state ==>
                  h.session == (m.hs.session && i.sameSession))
            && (m.hs.state.Client? && Got(ServerHello) in h.trace && Got(ServerHello) !in m.hs.trace ==>
                  h.session == (m.hs.session && i.sameSession && !m.hs.setup.renegotiation))
            && (m.hs.state.Server? && Got(ClientHello) in h.trace && Got(ClientHello) !in m.hs.trace ==>
                  h.session == i.sameSession && Progress(h) > 4)
            && (m.hs.state.Server? && Progress(m.hs) > 4 ==> h.session == m.hs.session)
  {
    hide HandshakeRun.Do, Answered, GoesOn, PassesThrough;
    if m.wait == Ok && !IsDone(m.hs) { DoObeys(m.hs, i); } else { ResolveSame(m, i); }
  }

  lemma {:induction false} SessionKept(m: Machine, ins: seq<In>)
    requires m.hs.state.Client?
    ensures Steps(m, ins).hs.session ==> m.hs.session
    ensures Steps(m, ins).hs.setup.renegotiation == m.hs.setup.renegotiation
  {
    hide Step;
    if ins != [] {
      SessionKept(m, ins[..|ins|-1]);
      StepsKeepSide(m, ins[..|ins|-1]);
      StepSettlesSession(Steps(m, ins[..|ins|-1]), ins[|ins|-1]);
    }
  }

  lemma ResumedOnlyIfOffered(dtls: bool, renegotiation: bool, offered: bool, ins: seq<In>) returns (k: nat)
    requires var hs := RunFrom(false, dtls, renegotiation, offered, ins).hs;
             hs.session && Got(ServerHello) in hs.trace
    ensures offered && !renegotiation && k < |ins| && ins[k].sameSession
    ensures var a := RunFrom(false, dtls, renegotiation, offered, ins[..k]);
            a.wait == Ok && a.hs.state == Client(ClientState.ReadServerHello) && ins[k].msg == Some(ServerHello)
  {
    hide Steps, Step;
    var m := Start(false, dtls, renegotiation, offered);
    k := GotChecked(m, ins, ServerHello);
    SessionKept(m, ins);
    SessionKept(m, ins[..k]);
    StepsKeepSide(m, ins[..k]);
    StepsKeepSide(m, ins[..k+1]);
    Rest(m, ins, k + 1);
    SessionKept(Steps(m, ins[..k+1]), ins[k+1..]);
    LastStep(m, ins[..k+1]);
    assert ins[..k+1][..k] == ins[..k];
    StepSettlesSession(Steps(m, ins[..k]), ins[k]);
  }

  lemma {:induction false} ServerSessionKept(m: Machine, ins: seq<In>)
    requires m.hs.state.Server? && Progress(m.hs) > 4
    ensures Steps(m, ins).hs.session == m.hs.session
  {
    hide Step;
    if ins != [] {
      ServerSessionKept(m, ins[..|ins|-1]);
      StepsKeepSide(m, ins[..|ins|-1]);
      StepSettlesSession(Steps(m, ins[..|ins|-1]), ins[|ins|-1]);
    }
  }

  lemma ServerResumesTheSame(dtls: bool, renegotiation: bool, offered: bool, ins: seq<In>) returns (k: nat)
    requires Got(ClientHello) in RunFrom(true, dtls, renegotiation, offered, ins).hs.trace
    ensures k < |ins| && RunFrom(true, dtls, renegotiation, offered, ins).hs.session == ins[k].sameSession
    ensures var a := RunFrom(true, dtls, renegotiation, offered, ins[..k]);
            a.wait == Ok && Reads(a.hs.state) == Some(ClientHello) && Got(ClientHello) !in a.hs.trace
  {
    hide Steps, Step;
    var m := Start(true, dtls, renegotiation, offered);
    k := GotChecked(m, ins, ClientHello);
    StepsKeepSide(m, ins[..k]);
    StepsKeepSide(m, ins[..k+1]);
    Rest(m, ins, k + 1);
    LastStep(m, ins[..k+1]);
    assert ins[..k+1][..k] == ins[..k];
    StepSettlesSession(Steps(m, ins[..k]), ins[k]);
    ServerSessionKept(Steps(m, ins[..k+1]), ins[k+1..]);
  }

  // ----- every willing handshake completes -----

  /** The handshake has no early data and waits for nothing that is refused. */
  predicate OnItsWay(m: Machine) {
    m.wait in {Ok, Flush, Wait.ReadChangeCipherSpec, EarlyReturn} && !m.hs.tls13 && !m.hs.setup.earlyOffered
    && m.hs.state != Client(ClientState.Tls13) && m.hs.state != Server(ServerState.Tls13)
  }

  /** Nothing goes wrong in a step: the transport does what it is asked for, and a
      state finds what it needs. */
  predicate Cooperates(m: Machine, i: In) { i.answer && (m.wait == Ok && !IsDone(m.hs) ==> Willing(m.hs, i)) }

  ghost predicate AllCooperate(m: Machine, ins: seq<In>) {
    forall k :: 0 <= k < |ins| ==> Cooperates(Steps(m, ins[..k]), ins[k])
  }

  /** How many steps are left at most. */
  function Left(m: Machine): nat { 2 * (LAST - Progress(m.hs)) + if m.wait == Ok then 0 else 1 }

  lemma StepGoesOn(m: Machine, i: In)
    requires OnItsWay(m) && Cooperates(m, i)
    ensures OnItsWay(Step(m, i))
    ensures Left(Step(m, i)) < Left(m) || (m.wait == Ok && IsDone(m.hs) && Step(m, i) == m)
  {
    hide HandshakeRun.Do, Checked, Answered, Settles, PassesThrough, Willing;
    if m.wait == Ok && !IsDone(m.hs) { DoObeys(m.hs, i); }
  }

  lemma OutOfSteps(m: Machine)
    ensures Left(m) == 0 ==> m.wait == Ok && IsDone(m.hs)
  {
  }

  lemma {:induction false} StepsLeft(m: Machine, ins: seq<In>)
    requires OnItsWay(m) && AllCooperate(m, ins)
    ensures OnItsWay(Steps(m, ins))
    ensures var r := Steps(m, ins); (r.wait == Ok && IsDone(r.hs)) || |ins| + Left(r) <= Left(m)
  {
    hide Step, OnItsWay, Cooperates;
    if ins != [] {
      var p, i := ins[..|ins|-1], ins[|ins|-1];
      forall k | 0 <= k < |p| ensures Cooperates(Steps(m, p[..k]), p[k]) {
        assert p[..k] == ins[..k];
        assert Cooperates(Steps(m, ins[..k]), ins[k]);
      }
      StepsLeft(m, p);
      assert Cooperates(Steps(m, p), i);
      StepGoesOn(Steps(m, p), i);
    }
  }

  /** Every handshake below TLS 1.3, on either side and of either kind, in which
      nothing goes wrong completes within forty steps, and then stays complete. */
  lemma WillingCompletes(server: bool, dtls: bool, renegotiation: bool, offered: bool, ins: seq<In>)
    requires AllCooperate(Start(server, dtls, renegotiation, offered), ins) && |ins| >= 40
    ensures var m := RunFrom(server, dtls, renegotiation, offered, ins); m.wait == Ok && IsDone(m.hs)
  {
    hide Steps;
    var m := Start(server, dtls, renegotiation, offered);
    StepsLeft(m, ins);
    OutOfSteps(Steps(m, ins));
  }
}
