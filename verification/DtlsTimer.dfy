/** The retransmission timer (d1_lib.cc:73-79, 120-187, 197-268): exponential
    backoff up to a minute, at most twelve times. Section 4.2.4.1 of RFC 6347. */
module DtlsTimer {
  import opened Wrappers
  import opened Bits

  /** struct OPENSSL_timeval. */
  datatype Time = Time(sec: nat, usec: nat)

  const TWO32: nat := 0x1_0000_0000
  const INT_MAX: nat := 0x7FFF_FFFF
  /** DTLS1_MTU_TIMEOUTS and DTLS1_MAX_TIMEOUTS. */
  const MTU_TIMEOUTS: nat := 2
  const MAX_TIMEOUTS: nat := 12
  const LONGEST: nat := 60000

  predicate Normal(t: Time) { t.usec < 1_000_000 }
  function Micros(t: Time): nat { t.sec * 1_000_000 + t.usec }
  const ZERO: Time := Time(0, 0)

  function Min(a: nat, b: nat): nat { if a <= b then a else b }

  /** The normal time that many microseconds after zero. */
  function OfMicros(n: nat): (t: Time)
    ensures Normal(t) && Micros(t) == n
  {
    Time(n / 1_000_000, n % 1_000_000)
  }

  lemma OneNormalTime(a: Time, b: Time)
    requires Normal(a) && Normal(b) && Micros(a) == Micros(b)
    ensures a == b
  {
  }

  /** The deadline of a timer started at a time, for a duration in milliseconds. */
  function Deadline(now: Time, duration: nat): (t: Time)
    ensures Normal(t) && Micros(t) == Micros(now) + 1000 * duration
  {
    OfMicros(Micros(now) + 1000 * duration)
  }

  lemma DeadlineRuns(now: Time, duration: nat)
    requires now != ZERO
    ensures Deadline(now, duration) != ZERO
  {
    hide Deadline, OfMicros;
    assert now.sec + now.usec >= 1;
    assert Micros(Deadline(now, duration)) >= 1;
    assert Micros(ZERO) == 0;
  }

  /** What is left until a deadline, less than 15 ms counting as nothing. */
  function Left(deadline: Time, now: Time): nat {
    var left := Micros(deadline) - Micros(now);
    if left < 15000 then 0 else left
  }

  /** What is reported: none for a stopped timer, and seconds within an int. */
  function Report(deadline: Time, now: Time): Option<Time> {
    if deadline == ZERO then None
    else
      var left := OfMicros(Left(deadline, now));
      Some(left.(sec := Min(INT_MAX, left.sec)))
  }

  /** Short of 2^31 seconds the report is exact. */
  lemma ReportExact(deadline: Time, now: Time)
    requires deadline != ZERO && Left(deadline, now) < 1_000_000 * (INT_MAX + 1)
    ensures Report(deadline, now).Some? && Normal(Report(deadline, now).value)
    ensures Micros(Report(deadline, now).value) == Left(deadline, now)
  {
  }

  // ----- the timer as a value -----

  /** The fields of DTLS1_STATE, the timer's own. A deadline of zero means that no
      timer runs. */
  datatype State = State(next: Time, duration: nat, timeouts: nat)

  predicate Expired(t: State, now: Time) { t.next != ZERO && Left(t.next, now) == 0 }

  function Doubled(duration: nat): nat { Min(LONGEST, 2 * duration % TWO32) }

  function Started(t: State, initial: nat, now: Time): State {
    var d := if t.next == ZERO then initial else t.duration;
    t.(next := Deadline(now, d), duration := d)
  }

  datatype Outcome = Nothing | Retransmit | Failed

  /** DTLSv1_handle_timeout, the clock read once to check and once to restart. */
  function Handled(t: State, initial: nat, checked: Time, restarted: Time): (State, Outcome) {
    if !Expired(t, checked) then (t, Nothing)
    else
      var t1 := t.(timeouts := t.timeouts + 1);
      if t1.timeouts > MAX_TIMEOUTS then (t1, Failed)
      else (Started(t1.(duration := Doubled(t.duration)), initial, restarted), Retransmit)
  }

  function Stopped(t: State, initial: nat): State { State(ZERO, initial, 0) }

  class Timer {
    const initial: nat
    const queryMtu: bool
    var next: Time
    var duration: nat
    var timeouts: nat
    var mtu: nat

    function Value(): State
      reads this
    {
      State(next, duration, timeouts)
    }

    ghost predicate Valid()
      reads this
    {
      Normal(next) && duration < TWO32 && initial < TWO32
    }

    constructor (initial: nat, queryMtu: bool)
      requires initial < TWO32
      ensures Valid() && Value() == State(ZERO, 0, 0) && mtu == 0
      ensures this.initial == initial && this.queryMtu == queryMtu
    {
      this.initial, this.queryMtu := initial, queryMtu;
      next, duration, timeouts, mtu := ZERO, 0, 0, 0;
    }

    /** dtls1_start_timer. */
    method StartTimer(now: Time)
      requires Valid() && Normal(now)
      modifies this`next, this`duration
      ensures Valid() && Value() == Started(old(Value()), initial, now)
    {
      if next.sec == 0 && next.usec == 0 { duration := initial; }
      var sec, usec := now.sec, now.usec;
      sec := sec + duration / 1000;
      usec := usec + duration % 1000 * 1000;
      if usec >= 1_000_000 {
        sec := sec + 1;
        usec := usec - 1_000_000;
      }
      next := Time(sec, usec);
      OneNormalTime(next, Deadline(now, duration));
    }

    /** dtls1_double_timeout. */
    method DoubleTimeout()
      requires Valid()
      modifies this`duration
      ensures Valid() && duration == Doubled(old(duration))
    {
      duration := 2 * duration % TWO32;
      if duration > LONGEST { duration := LONGEST; }
    }

    /** dtls1_stop_timer. */
    method StopTimer()
      requires Valid()
      modifies this`next, this`duration, this`timeouts
      ensures Valid() && Value() == Stopped(old(Value()), initial)
    {
      timeouts := 0;
      next := ZERO;
      duration := initial;
    }

    /** dtls1_check_timeout_num; the BIO gives a smaller MTU after the second
        timeout, which is taken if it is acceptable. */
    method CheckTimeoutNum(fallback: int, minMtu: nat) returns (ok: bool)
      modifies this`timeouts, this`mtu
      ensures timeouts == old(timeouts) + 1 && (ok <==> timeouts <= MAX_TIMEOUTS)
      ensures mtu == if timeouts > MTU_TIMEOUTS && queryMtu && minMtu <= fallback <= 0x4000_0000 then fallback
              else old(mtu)
    {
      timeouts := timeouts + 1;
      if timeouts > MTU_TIMEOUTS && queryMtu {
        if 0 <= fallback <= 0x4000_0000 && fallback >= minMtu { mtu := fallback; }
      }
      return timeouts <= MAX_TIMEOUTS;
    }

    /** DTLSv1_get_timeout. */
    method GetTimeout(now: Time) returns (left: Option<Time>)
      requires Valid() && Normal(now)
      ensures left == Report(next, now)
    {
      hide OfMicros;
      if next.sec == 0 && next.usec == 0 { return None; }
      if next.sec < now.sec || (next.sec == now.sec && next.usec <= now.usec) { return Some(ZERO); }
      var sec, usec := next.sec - now.sec, next.usec;
      if usec >= now.usec {
        usec := usec - now.usec;
      } else {
        usec := 1_000_000 + usec - now.usec;
        sec := sec - 1;
      }
      if sec == 0 && usec < 15000 { usec := 0; }
      OneNormalTime(Time(sec, usec), OfMicros(Left(next, now)));
      if sec > INT_MAX { sec := INT_MAX; }
      return Some(Time(sec, usec));
    }

    /** dtls1_is_timer_expired. */
    method IsExpired(now: Time) returns (yes: bool)
      requires Valid() && Normal(now)
      ensures yes <==> Expired(Value(), now)
    {
      var left := GetTimeout(now);
      if left.None? { return false; }
      return !(left.value.sec > 0 || left.value.usec > 0);
    }

    /** DTLSv1_handle_timeout; Retransmit stands for sending the flight again. */
    method HandleTimeout(checked: Time, restarted: Time, fallback: int, minMtu: nat) returns (outcome: Outcome)
      requires Valid() && Normal(checked) && Normal(restarted)
      modifies this
      ensures Valid() && (Value(), outcome) == Handled(old(Value()), initial, checked, restarted)
      ensures mtu == if Expired(old(Value()), checked) && timeouts > MTU_TIMEOUTS && queryMtu
              && minMtu <= fallback <= 0x4000_0000
                     then fallback else old(mtu)
    {
      var expired := IsExpired(checked);
      if !expired { return Nothing; }
      var ok := CheckTimeoutNum(fallback, minMtu);
      if !ok { return Failed; }
      DoubleTimeout();
      StartTimer(restarted);
      return Retransmit;
    }
  }

  // ----- the same in numbers -----

  /** DTLSv1_get_timeout: nothing without a timer; zero once the deadline has passed
      or is less than 15 ms away; else what is left. */
  lemma ReportInNumbers(deadline: Time, now: Time)
    ensures var left := 1_000_000 * deadline.sec + deadline.usec - 1_000_000 * now.sec - now.usec;
            var r := Report(deadline, now);
            && (r.None? <==> deadline.sec == 0 && deadline.usec == 0)
            && (r.Some? && left < 15_000 ==> r.value.sec == 0 && r.value.usec == 0)
            && (r.Some? && left >= 15_000 ==>
                  && r.value.usec < 1_000_000
                  && if left < 1_000_000 * 0x8000_0000 then 1_000_000 * r.value.sec + r.value.usec == left
                     else r.value.sec == 0x7FFF_FFFF)
  {
    hide OfMicros, Left, Micros;
    LeftIs(deadline, now);
    if deadline != ZERO { SecondsOf(OfMicros(Left(deadline, now)), Left(deadline, now)); }
  }

  lemma LeftIs(deadline: Time, now: Time)
    ensures var left := 1_000_000 * deadline.sec + deadline.usec - 1_000_000 * now.sec - now.usec;
            Left(deadline, now) == if left < 15_000 then 0 else left
  {
  }

  lemma SecondsOf(t: Time, n: nat)
    requires Normal(t) && Micros(t) == n
    ensures var m := t.(sec := Min(INT_MAX, t.sec));
            && (n == 0 ==> m.sec == 0 && m.usec == 0)
            && m.usec < 1_000_000
            && if n < 1_000_000 * 0x8000_0000 then 1_000_000 * m.sec + m.usec == n else m.sec == 0x7FFF_FFFF
  {
  }

  /** DTLSv1_handle_timeout: nothing before the deadline less 15 ms; from then on a
      timeout is counted, the thirteenth is a failure, and any other doubles the
      duration, up to a minute, and sets the deadline that much later. */
  lemma HandledInNumbers(t: State, initial: nat, checked: Time, restarted: Time)
    requires Normal(restarted) && 2 * t.duration < 0x1_0000_0000
    ensures var left := 1_000_000 * t.next.sec + t.next.usec - 1_000_000 * checked.sec - checked.usec;
            var (t', outcome) := Handled(t, initial, checked, restarted);
            if (t.next.sec == 0 && t.next.usec == 0) || left >= 15_000 then t' == t && outcome == Nothing
            else
              && t'.timeouts == t.timeouts + 1 && (outcome == Failed <==> t'.timeouts > 12)
              && (outcome != Failed ==>
                    && outcome == Retransmit && t'.duration == Min(60_000, 2 * t.duration)
                    && t'.next.usec < 1_000_000
                    && 1_000_000 * t'.next.sec + t'.next.usec
                       == 1_000_000 * restarted.sec + restarted.usec + 1_000 * t'.duration)
  {
    hide OfMicros;
  }

  // ----- whole runs -----

  datatype Event = Start(now: Time) | Stop | Handle(checked: Time, restarted: Time)

  function Step(t: State, initial: nat, e: Event): State {
    match e
    case Start(now) => Started(t, initial, now)
    case Stop => Stopped(t, initial)
    case Handle(checked, restarted) => Handled(t, initial, checked, restarted).0
  }

  /** A connection's timer, from its creation. */
  function Run(initial: nat, es: seq<Event>): State {
    if es == [] then State(ZERO, 0, 0) else Step(Run(initial, es[..|es|-1]), initial, es[|es|-1])
  }

  /** What an event's handler answers at its place in a run. */
  function Answer(initial: nat, es: seq<Event>, i: nat): Outcome
    requires i < |es|
  {
    match es[i]
    case Handle(checked, restarted) => Handled(Run(initial, es[..i]), initial, checked, restarted).1
    case _ => Nothing
  }

  /** How many timeouts were handled, and how many failed, since the last stop. */
  function Count(initial: nat, es: seq<Event>, what: Outcome): nat {
    if es == [] || es[|es|-1].Stop? then 0
    else Count(initial, es[..|es|-1], what) + if Answer(initial, es, |es|-1) == what then 1 else 0
  }

  /** The time at which the running timer was last set, if it runs. */
  function LastSet(initial: nat, es: seq<Event>): Option<Time> {
    if es == [] then None
    else
      var e := es[|es|-1];
      match e
      case Start(now) => Some(now)
      case Stop => None
      case Handle(_, restarted) =>
        if Answer(initial, es, |es|-1) == Retransmit then Some(restarted) else LastSet(initial, es[..|es|-1])
  }

  /** k doublings of a duration, with 32 bits and the limit. */
  function Backoff(initial: nat, k: nat): nat {
    if k == 0 then initial else Doubled(Backoff(initial, k - 1))
  }

  /** The clock has left zero. */
  predicate Clocked(es: seq<Event>) {
    forall e :: e in es ==>
      (e.Start? ==> Normal(e.now) && e.now != ZERO)
      && (e.Handle? ==> Normal(e.checked) && Normal(e.restarted) && e.restarted != ZERO)
  }

  /** Over every run: the timer runs exactly if it was set since the last stop;
      then its deadline is normal and lies its duration after it was last set, the
      duration is the initial one doubled once for each timeout handled since the
      last stop, there were at most twelve of these, and none after a failure. */
  lemma {:induction false} TimerOverRuns(initial: nat, es: seq<Event>)
    requires Clocked(es) && initial < TWO32
    ensures var t := Run(initial, es);
            var k := Count(initial, es, Retransmit);
            && k == Min(MAX_TIMEOUTS, t.timeouts) && t.timeouts == k + Count(initial, es, Failed)
            && (t.next != ZERO <==> LastSet(initial, es).Some?)
            && (t.next == ZERO ==> t.timeouts == 0)
            && (t.next != ZERO ==>
                  t.duration == Backoff(initial, k) && t.next == Deadline(LastSet(initial, es).value, t.duration))
  {
    hide Deadline, Left, Doubled, Micros, Normal;
    if es != [] {
      var p, e := es[..|es|-1], es[|es|-1];
      TimerOverRuns(initial, p);
      assert e in es;
      var t, k := Run(initial, p), Count(initial, p, Retransmit);
      DeadlineRunsFor(e, t.duration, initial);
      assert Backoff(initial, k + 1) == Doubled(Backoff(initial, k));
    }
  }

  lemma DeadlineRunsFor(e: Event, duration: nat, initial: nat)
    requires (e.Start? ==> e.now != ZERO) && (e.Handle? ==> e.restarted != ZERO)
    ensures e.Start? ==> Deadline(e.now, duration) != ZERO && Deadline(e.now, initial) != ZERO
    ensures e.Handle? ==> Deadline(e.restarted, Doubled(duration)) != ZERO
  {
    if e.Start? {
      DeadlineRuns(e.now, duration);
      DeadlineRuns(e.now, initial);
    } else if e.Handle? {
      DeadlineRuns(e.restarted, Doubled(duration));
    }
  }

  /** In closed form: from the first doubling on, whatever the initial duration. */
  lemma {:induction false} BackoffClosed(initial: nat, k: nat)
    requires k >= 1
    ensures Backoff(initial, k) == Min(LONGEST, 2 * initial % TWO32 * Pow2(k - 1))
  {
    if k > 1 {
      BackoffClosed(initial, k - 1);
      CapDoubles(2 * initial % TWO32, Pow2(k - 2));
      ProductDoubles(2 * initial % TWO32, Pow2(k - 2));
    } else {
      assert Backoff(initial, 1) == Doubled(Backoff(initial, 0));
    }
  }

  lemma CapDoubles(d: nat, p: nat)
    ensures Doubled(Min(LONGEST, d * p)) == Min(LONGEST, 2 * (d * p))
  {
  }

  lemma ProductDoubles(d: nat, p: nat)
    ensures d * (2 * p) == 2 * (d * p)
  {
  }

  /** The duration is min(60000, initial * 2^k) after every number k of handled
      timeouts, exactly if the initial duration is at most a minute. */
  lemma DurationExactly(initial: nat)
    requires initial < TWO32
    ensures (forall k: nat :: Backoff(initial, k) == Min(LONGEST, initial * Pow2(k))) <==> initial <= LONGEST
  {
    if initial <= LONGEST {
      forall k: nat ensures Backoff(initial, k) == Min(LONGEST, initial * Pow2(k)) {
        if k >= 1 {
          BackoffClosed(initial, k);
          ProductDoubles(initial, Pow2(k - 1));
          assert (2 * initial) * Pow2(k - 1) == 2 * (initial * Pow2(k - 1));
        }
      }
    } else {
      assert Backoff(initial, 0) != Min(LONGEST, initial * Pow2(0));
    }
  }

  /** An initial duration over a minute is used as it is, once; and one of 2^31 ms
      wraps to nothing when doubled. */
  lemma LongInitialDuration()
    ensures Backoff(90000, 0) == 90000 && Backoff(90000, 1) == LONGEST
    ensures Backoff(0x8000_0000, 1) == 0
  {
    assert Backoff(90000, 1) == Doubled(Backoff(90000, 0));
    assert Backoff(0x8000_0000, 1) == Doubled(Backoff(0x8000_0000, 0));
  }
}
