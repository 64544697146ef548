/** When a flight is over: the two fields of DTLS1_STATE that the sending and the
    receiving half share, and what they amount to over whole runs
    (d1_both.cc:425-438, 500-556, 814-817, dtls_method.cc:71-79). */
module DtlsReply {
  import opened DtlsOutbox

  /** outgoing_messages_complete and flight_has_reply. */
  class FlightFlags {
    var complete: bool
    var hasReply: bool

    constructor ()
      ensures !complete && !hasReply
    {
      complete, hasReply := false, false;
    }
  }

  /** The outgoing flight and its flags. */
  datatype State = State(flight: seq<OutMessage>, complete: bool, hasReply: bool)

  const CLEARED := State([], false, false)

  datatype Event =
    | Add(m: OutMessage) // add_outgoing
    | Flush              // dtls1_flush_flight
    | Take               // dtls1_next_message
    | Complete           // dtls1_on_handshake_complete

  function Step(s: State, maxFlight: nat, e: Event): State {
    match e
    case Add(m) =>
      var kept := if s.complete then CLEARED else s;
      if |kept.flight| < maxFlight then kept.(flight := kept.flight + [m]) else kept
    case Flush => s.(complete := true)
    case Take => if s.complete then s.(hasReply := true) else s
    case Complete => if s.hasReply then CLEARED else s
  }

  ghost function Run(maxFlight: nat, es: seq<Event>): State {
    if es == [] then CLEARED else Step(Run(maxFlight, es[..|es|-1]), maxFlight, es[|es|-1])
  }

  // ----- the same, told by the events alone -----

  /** The flight was flushed at f and has not been dropped since. */
  ghost predicate FlushedAt(es: seq<Event>, f: nat)
    requires f < |es|
    decreases |es|, 1
  {
    es[f].Flush? && forall k :: f < k < |es| ==> !Drops(es, k)
  }

  /** A flushed flight is dropped by the first message of the next flight, or, if it
      was answered, by the end of the handshake. */
  ghost predicate Drops(es: seq<Event>, k: nat)
    requires k < |es|
    decreases |es|, 0
  {
    es[k].Add? || (es[k].Complete? && Answered(es[..k]))
  }

  ghost predicate Flushed(es: seq<Event>) { exists f :: 0 <= f < |es| && FlushedAt(es, f) }

  /** A message was taken after the flush of the flight. */
  ghost predicate Answered(es: seq<Event>)
    decreases |es|, 2
  {
    exists f, t :: 0 <= f < t < |es| && FlushedAt(es, f) && es[t].Take?
  }

  lemma FlushedBefore(es: seq<Event>, f: nat)
    requires f < |es| - 1
    ensures FlushedAt(es, f) <==> FlushedAt(es[..|es|-1], f) && !Drops(es, |es| - 1)
  {
    var p := es[..|es|-1];
    forall k | 0 <= k < |p| ensures Drops(es, k) == Drops(p, k) { assert es[..k] == p[..k]; }
  }

  /** The flags say exactly that: the flight was flushed, and it was answered. */
  lemma {:induction false} FlagsExactly(maxFlight: nat, es: seq<Event>)
    ensures Run(maxFlight, es).complete <==> Flushed(es)
    ensures Run(maxFlight, es).hasReply <==> Answered(es)
  {
    hide FlushedAt;
    if es != [] {
      var n := |es| - 1;
      var p := es[..n];
      FlagsExactly(maxFlight, p);
      forall f | 0 <= f < n ensures FlushedAt(es, f) <==> FlushedAt(p, f) && !Drops(es, n) { FlushedBefore(es, f); }
      LastFlushed(es);
    }
  }

  lemma LastFlushed(es: seq<Event>)
    requires es != []
    ensures FlushedAt(es, |es| - 1) <==> es[|es|-1].Flush?
  {
  }

  /** So over every run the end of the handshake drops the flight exactly if a
      message was taken after its flush, and a new message exactly if it was flushed. */
  lemma DroppedExactly(maxFlight: nat, es: seq<Event>, m: OutMessage)
    ensures var flight := Run(maxFlight, es).flight;
            && Run(maxFlight, es + [Complete]).flight == (if Answered(es) then [] else flight)
            && var kept := if Flushed(es) then [] else flight;
               Run(maxFlight, es + [Add(m)]).flight == if |kept| < maxFlight then kept + [m] else kept
  {
    assert (es + [Complete])[..|es|] == es && (es + [Add(m)])[..|es|] == es;
    FlagsExactly(maxFlight, es);
  }
}
