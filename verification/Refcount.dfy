/** Reference counts: the form under a lock (refcount_lock.c:29-51), and the
    lock-free form with compare-and-swap loops (refcount_c11.c:37-65) as a machine
    of threads, each step of which is one atomic access. Every operation of the
    lock-free form is one operation of the form under the lock. */
module Refcount {
  import opened Wrappers

  /** CRYPTO_REFCOUNT_MAX. */
  const MAX: nat := 0xFFFF_FFFF

  datatype Op = Inc | Dec

  /** What an operation returns; Aborted stands for abort(). */
  datatype Ret = Done | NotZero | Zero | Aborted

  /** One operation on the count, as a step. */
  function Step(count: nat, op: Op): (nat, Ret) {
    match op
    case Inc => (if count < MAX then count + 1 else count, Done)
    case Dec =>
      if count == 0 then (0, Aborted)
      else
        var c := if count < MAX then count - 1 else count;
        (c, if c == 0 then Zero else NotZero)
  }

  /** The form under the lock. abort() ends the process with the lock held: no
      operation comes after it. */
  class LockedCount {
    var count: nat
    var aborted: bool

    /** CRYPTO_refcount_inc. */
    method Inc()
      requires count <= MAX && !aborted
      modifies this
      ensures count <= MAX && count == Step(old(count), Op.Inc).0 && !aborted
    {
      if count < MAX { count := count + 1; }
    }

    /** CRYPTO_refcount_dec_and_test_zero. */
    method DecAndTestZero() returns (ret: Ret)
      requires count <= MAX && !aborted
      modifies this
      ensures count <= MAX && (count, ret) == Step(old(count), Dec)
      ensures aborted <==> ret == Aborted
    {
      if count == 0 {
        aborted := true;
        return Aborted;
      }
      if count < MAX { count := count - 1; }
      return if count == 0 then Zero else NotZero;
    }
  }

  // ----- histories of operations, one after the other -----

  datatype Event = Event(thread: nat, op: Op, ret: Ret)

  /** The count after a history that the form under the lock can show: each event
      has the result it has there, and none follows an abort. */
  function Replay(count: nat, h: seq<Event>): Option<nat> {
    if h == [] then Some(count)
    else
      var p, e := h[..|h|-1], h[|h|-1];
      match Replay(count, p)
      case None => None
      case Some(c) => if !Ended(p) && Step(c, e.op).1 == e.ret then Some(Step(c, e.op).0) else None
  }

  predicate Ended(h: seq<Event>) { h != [] && h[|h|-1].ret == Aborted }

  /** The same, but going on after an abort as if it had not been. */
  function Follow(count: nat, h: seq<Event>): Option<nat> {
    if h == [] then Some(count)
    else
      match Follow(count, h[..|h|-1])
      case None => None
      case Some(c) =>
        var e := h[|h|-1];
        if Step(c, e.op).1 == e.ret then Some(Step(c, e.op).0) else None
  }

  /** No event follows an abort. */
  predicate AbortIsLast(h: seq<Event>) { forall i :: 0 <= i < |h| - 1 ==> h[i].ret != Aborted }

  /** A history that can be followed is one of the form under the lock exactly if
      nothing in it follows an abort. */
  lemma {:induction false} ReplayExactly(count: nat, h: seq<Event>)
    requires Follow(count, h).Some?
    ensures Replay(count, h) == if AbortIsLast(h) then Follow(count, h) else None
  {
    if h != [] {
      var p := h[..|h|-1];
      ReplayExactly(count, p);
      assert AbortIsLast(h) <==> AbortIsLast(p) && !Ended(p);
    }
  }

  /** And up to its first abort it is one in any case. */
  lemma {:induction false} LockUpToAbort(count: nat, h: seq<Event>) returns (n: nat)
    requires Follow(count, h).Some?
    ensures n <= |h| && Replay(count, h[..n]).Some? && (n == |h| || Ended(h[..n]))
  {
    if h == [] {
      n := 0;
    } else {
      var p := h[..|h|-1];
      n := LockUpToAbort(count, p);
      assert h[..n] == p[..n];
      if !Ended(p[..n]) {
        assert p[..n] == p;
        ReplayExactly(count, p);
        assert h[..|h|] == h;
        n := |h|;
      }
    }
  }

  /** How much a history adds, if nothing saturates. */
  function Net(h: seq<Event>): int {
    if h == [] then 0
    else
      var e := h[|h|-1];
      Net(h[..|h|-1]) + if e.op.Inc? then 1 else if e.ret.Aborted? then 0 else -1
  }

  /** Some time in the history the count reached its maximum. */
  predicate Saturated(count: nat, h: seq<Event>) { exists i :: 0 <= i <= |h| && Follow(count, h[..i]) == Some(MAX) }

  lemma {:induction false} FollowPrefix(count: nat, h: seq<Event>, i: nat)
    requires i <= |h| && Follow(count, h).Some?
    ensures Follow(count, h[..i]).Some?
  {
    if i < |h| {
      assert h[..|h|-1][..i] == h[..i];
      FollowPrefix(count, h[..|h|-1], i);
    } else {
      assert h[..i] == h;
    }
  }

  /** The count is what was added less what was taken away, until it saturates;
      from then on it never changes. */
  lemma {:induction false} CountIsNet(count: nat, h: seq<Event>)
    requires count <= MAX && Follow(count, h).Some?
    ensures Follow(count, h).value == if Saturated(count, h) then MAX else count + Net(h)
    ensures Follow(count, h).value <= MAX
  {
    assert h[..|h|] == h;
    if h != [] {
      var p := h[..|h|-1];
      CountIsNet(count, p);
      assert forall i :: 0 <= i <= |p| ==> p[..i] == h[..i];
      if Saturated(count, p) {
        var i :| 0 <= i <= |p| && Follow(count, p[..i]) == Some(MAX);
        assert Follow(count, h[..i]) == Some(MAX);
      }
    } else if count == MAX {
      assert Follow(count, h[..0]) == Some(MAX);
    }
  }

  /** Each fall to zero is reported by exactly the operation that caused it. */
  lemma FallsReported(count: nat, h: seq<Event>, i: nat)
    requires i < |h| && Follow(count, h).Some?
    ensures Follow(count, h[..i]).Some? && Follow(count, h[..i+1]).Some?
    ensures h[i].ret == Zero <==> Follow(count, h[..i]).value > 0 && Follow(count, h[..i+1]).value == 0
  {
    FollowPrefix(count, h, i);
    FollowPrefix(count, h, i + 1);
    assert h[..i+1][..i] == h[..i];
  }

  // ----- the lock-free form -----

  /** Where a thread stands: outside, before the first load, in the loop with the
      value it expects, or past its last access, with what it will return. seen is
      the length of the history when the expected value was read. */
  datatype Pc = Idle | Started(op: Op) | Holding(op: Op, expected: nat, seen: nat) | Leaving(op: Op, ret: Ret)

  datatype World = World(count: nat, threads: seq<Pc>, history: seq<Event>, completed: seq<Event>, aborted: bool)

  datatype Move =
    | Begin(t: nat, op: Op)
    | Load(t: nat) // atomic_load
    | Swap(t: nat, spurious: bool) // atomic_compare_exchange_weak
    | Stuck(t: nat) // the loop ends on the maximum
    | Return(t: nat)

  predicate Enabled(w: World, m: Move) {
    && !w.aborted && m.t < |w.threads|
    && match m
       case Begin(t, _) => w.threads[t].Idle?
       case Load(t) => w.threads[t].Started?
       case Swap(t, _) => w.threads[t].Holding? && w.threads[t].expected != MAX
       case Stuck(t) => w.threads[t].Holding? && w.threads[t].expected == MAX
       case Return(t) => w.threads[t].Leaving?
  }

  /** A thread's operation takes effect. */
  function Commit(w: World, t: nat, op: Op, ret: Ret): World
    requires t < |w.threads|
  {
    w.(threads := w.threads[t := Leaving(op, ret)], history := w.history + [Event(t, op, ret)])
  }

  /** A thread has read the count: a decrement that reads zero is bound to abort. */
  function Read(w: World, t: nat, op: Op): World
    requires t < |w.threads|
  {
    if op.Dec? && w.count == 0 then Commit(w, t, op, Aborted)
    else w.(threads := w.threads[t := Holding(op, w.count, |w.history|)])
  }

  /** The value that a thread wants to store. */
  function New(op: Op, expected: nat): int { if op.Inc? then expected + 1 else expected - 1 }

  function Apply(w: World, m: Move): World
    requires Enabled(w, m)
  {
    match m
    case Begin(t, op) => w.(threads := w.threads[t := Started(op)])
    case Load(t) => Read(w, t, w.threads[t].op)
    case Stuck(t) => Commit(w, t, w.threads[t].op, if w.threads[t].op.Inc? then Done else NotZero)
    case Swap(t, spurious) =>
      var pc := w.threads[t];
      if spurious || w.count != pc.expected then Read(w, t, pc.op)
      else
        var c := New(pc.op, pc.expected);
        var count := if c < 0 then 0 else c;
        Commit(w.(count := count), t, pc.op, if pc.op.Inc? then Done else if count == 0 then Zero else NotZero)
    case Return(t) =>
      var pc := w.threads[t];
      if pc.ret.Aborted? then w.(aborted := true)
      else w.(threads := w.threads[t := Idle], completed := w.completed + [Event(t, pc.op, pc.ret)])
  }

  /** A run from a count, with some number of idle threads. */
  ghost predicate Run(count: nat, n: nat, ws: seq<World>, ms: seq<Move>) {
    && |ws| == |ms| + 1 && count <= MAX
    && ws[0] == World(count, seq(n, _ => Idle), [], [], false)
    && forall i :: 0 <= i < |ms| ==> Enabled(ws[i], ms[i]) && ws[i+1] == Apply(ws[i], ms[i])
  }

  /** The operations of one thread, in order. */
  function Of(h: seq<Event>, t: nat): seq<Event> {
    if h == [] then []
    else Of(h[..|h|-1], t) + if h[|h|-1].thread == t then [h[|h|-1]] else []
  }

  /** What a thread's place says: the value it holds is the count, unless some
      operation has taken effect since; the maximum is there to stay; and a
      decrement never holds zero. */
  predicate PcOk(w: World, pc: Pc) {
    match pc
    case Holding(op, expected, seen) =>
      && expected <= MAX && seen <= |w.history| && (expected == MAX ==> w.count == MAX)
      && (op.Dec? ==> expected > 0) && (seen == |w.history| ==> w.count == expected)
    case _ => true
  }

  /** The operation that has taken effect but not returned. */
  function Pending(w: World, t: nat): seq<Event>
    requires t < |w.threads|
  {
    match w.threads[t]
    case Leaving(op, ret) => [Event(t, op, ret)]
    case _ => []
  }

  ghost predicate Good(count: nat, w: World) {
    && w.count <= MAX && Follow(count, w.history) == Some(w.count)
    && (forall t :: 0 <= t < |w.threads| ==> PcOk(w, w.threads[t]))
    && (forall t :: 0 <= t < |w.threads| ==> Of(w.history, t) == Of(w.completed, t) + Pending(w, t))
  }

  lemma OfAppend(h: seq<Event>, e: Event, t: nat)
    ensures Of(h + [e], t) == Of(h, t) + if e.thread == t then [e] else []
  {
    assert (h + [e])[..|h|] == h;
  }

  lemma FollowAppend(count: nat, h: seq<Event>, e: Event)
    requires Follow(count, h).Some? && Step(Follow(count, h).value, e.op).1 == e.ret
    ensures Follow(count, h + [e]) == Some(Step(Follow(count, h).value, e.op).0)
  {
    assert (h + [e])[..|h|] == h;
  }

  /** Taking effect: the count moves as the operation under the lock moves it. */
  lemma CommitKeepsGood(count: nat, w: World, t: nat, op: Op, ret: Ret, c: nat)
    requires Good(count, w) && t < |w.threads| && Pending(w, t) == []
    requires Step(w.count, op) == (c, ret)
    ensures Good(count, Commit(w.(count := c), t, op, ret))
  {
    hide Follow, Of;
    var w' := Commit(w.(count := c), t, op, ret);
    var e := Event(t, op, ret);
    FollowAppend(count, w.history, e);
    forall u | 0 <= u < |w'.threads|
      ensures PcOk(w', w'.threads[u]) && Of(w'.history, u) == Of(w'.completed, u) + Pending(w', u)
    {
      OfAppend(w.history, e, u);
      assert PcOk(w, w.threads[u]);
    }
  }

  lemma ReadKeepsGood(count: nat, w: World, t: nat, op: Op)
    requires Good(count, w) && t < |w.threads| && Pending(w, t) == []
    ensures Good(count, Read(w, t, op))
  {
    hide Follow, Of;
    if op.Dec? && w.count == 0 { CommitKeepsGood(count, w, t, op, Aborted, 0); }
  }

  /** Every step of every thread keeps the invariant. */
  lemma MoveKeepsGood(count: nat, w: World, m: Move)
    requires Good(count, w) && Enabled(w, m)
    ensures Good(count, Apply(w, m))
  {
    hide Follow, Of;
    var pc := w.threads[m.t];
    assert PcOk(w, pc);
    match m
    case Begin(t, op) =>
    case Load(t) => ReadKeepsGood(count, w, t, pc.op);
    case Stuck(t) => CommitKeepsGood(count, w, t, pc.op, if pc.op.Inc? then Done else NotZero, MAX);
    case Swap(t, spurious) =>
      if spurious || w.count != pc.expected {
        ReadKeepsGood(count, w, t, pc.op);
      } else {
        var c := New(pc.op, pc.expected);
        CommitKeepsGood(count, w, t, pc.op, if pc.op.Inc? then Done else if c == 0 then Zero else NotZero, c);
      }
    case Return(t) => if !pc.ret.Aborted? { ReturnKeepsGood(count, w, t); }
  }

  lemma ReturnKeepsGood(count: nat, w: World, t: nat)
    requires Good(count, w) && t < |w.threads| && w.threads[t].Leaving?
    ensures var pc := w.threads[t];
            Good(count, w.(threads := w.threads[t := Idle], completed := w.completed + [Event(t, pc.op, pc.ret)]))
  {
    hide Follow, Of;
    var pc := w.threads[t];
    var e := Event(t, pc.op, pc.ret);
    var w' := w.(threads := w.threads[t := Idle], completed := w.completed + [e]);
    forall u | 0 <= u < |w'.threads|
      ensures PcOk(w', w'.threads[u]) && Of(w'.history, u) == Of(w'.completed, u) + Pending(w', u)
    {
      OfAppend(w.completed, e, u);
      assert PcOk(w, w.threads[u]);
    }
  }

  lemma {:induction false} RunKeepsGood(count: nat, n: nat, ws: seq<World>, ms: seq<Move>, k: nat)
    requires Run(count, n, ws, ms) && k < |ws|
    ensures Good(count, ws[k])
  {
    hide Enabled, Apply;
    if k > 0 {
      RunKeepsGood(count, n, ws, ms, k - 1);
      MoveKeepsGood(count, ws[k-1], ms[k-1]);
    }
  }

  /** The lock-free form against the one under the lock, over every run of any
      number of threads, with any compare-and-swap failing for no reason: the
      operations took effect one after the other, each with the result and the
      change of the count that it has under the lock; each thread's operations
      returned those results, in that order, the last one perhaps not yet; and all
      of it is a history of the form under the lock exactly if no operation took
      effect after a decrement had read zero. */
  lemma RefinesLock(count: nat, n: nat, ws: seq<World>, ms: seq<Move>, k: nat)
    requires Run(count, n, ws, ms) && k < |ws|
    ensures Follow(count, ws[k].history) == Some(ws[k].count)
    ensures Replay(count, ws[k].history) == if AbortIsLast(ws[k].history) then Some(ws[k].count) else None
    ensures ws[k].count == if Saturated(count, ws[k].history) then MAX else count + Net(ws[k].history)
    ensures forall t :: 0 <= t < |ws[k].threads| ==> Of(ws[k].history, t) == Of(ws[k].completed, t) + Pending(ws[k], t)
  {
    RunKeepsGood(count, n, ws, ms, k);
    CountIsNet(count, ws[k].history);
    ReplayExactly(count, ws[k].history);
  }

  // ----- the order across threads -----

  /** Nothing that has taken effect is undone or reordered. */
  lemma {:induction false} HistoryGrows(count: nat, n: nat, ws: seq<World>, ms: seq<Move>, i: nat, k: nat)
    requires Run(count, n, ws, ms) && i <= k < |ws|
    ensures ws[i].history <= ws[k].history
  {
    if i < k { HistoryGrows(count, n, ws, ms, i, k - 1); }
  }

  /** How many operations a thread has begun. */
  function Begins(ms: seq<Move>, t: nat): nat {
    if ms == [] then 0
    else
      var m := ms[|ms|-1];
      Begins(ms[..|ms|-1], t) + if m.Begin? && m.t == t then 1 else 0
  }

  lemma {:induction false} BegunOrReturned(count: nat, n: nat, ws: seq<World>, ms: seq<Move>, k: nat, t: nat)
    requires Run(count, n, ws, ms) && k < |ws| && t < n
    ensures |ws[k].threads| == n
    ensures Begins(ms[..k], t) == |Of(ws[k].completed, t)| + if ws[k].threads[t].Idle? then 0 else 1
  {
    hide Of;
    if k > 0 {
      var w, m := ws[k-1], ms[k-1];
      BegunOrReturned(count, n, ws, ms, k - 1, t);
      assert ms[..k][..k-1] == ms[..k-1];
      if m.Return? { OfAppend(w.completed, Event(m.t, w.threads[m.t].op, w.threads[m.t].ret), t); }
    } else {
      assert Of([], t) == [] by { OfNothing(t); }
    }
  }

  lemma OfNothing(t: nat)
    ensures Of([], t) == []
  {
  }

  /** Where a thread's operation, by its number, stands in a history. */
  function Place(h: seq<Event>, t: nat, j: nat): (r: nat)
    requires j < |Of(h, t)|
    ensures r < |h| && h[r] == Of(h, t)[j]
  {
    var p := h[..|h|-1];
    if j < |Of(p, t)| then Place(p, t, j) else |h| - 1
  }

  /** More history moves nothing, and what is new in it comes after it. */
  lemma {:induction false} PlaceStays(h: seq<Event>, h': seq<Event>, t: nat, j: nat)
    requires h <= h' && j < |Of(h', t)|
    ensures if j < |Of(h, t)| then Place(h', t, j) == Place(h, t, j) else Place(h', t, j) >= |h|
  {
    if h == h' {
    } else {
      var p := h'[..|h'|-1];
      assert h <= p;
      if j < |Of(p, t)| { PlaceStays(h, p, t, j); } else { OfGrows(h, p, t); }
    }
  }

  lemma {:induction false} OfGrows(h: seq<Event>, h': seq<Event>, t: nat)
    requires h <= h'
    ensures |Of(h, t)| <= |Of(h', t)|
  {
    if h != h' { OfGrows(h, h'[..|h'|-1], t); }
  }

  /** Over every run: an operation that returned before another one began, in
      whatever threads, took effect before it. */
  lemma EffectsKeepOrder(count: nat, n: nat, ws: seq<World>, ms: seq<Move>, b: nat, k: nat, u: nat, i: nat, t: nat,
                         j: nat)
    requires Run(count, n, ws, ms) && b <= k < |ws| && u < n && t < n
    requires i < |Of(ws[b].completed, u)| && Begins(ms[..b], t) <= j < |Of(ws[k].history, t)|
    ensures i < |Of(ws[k].history, u)| && Of(ws[k].history, u)[i] == Of(ws[b].completed, u)[i]
    ensures Place(ws[k].history, u, i) < Place(ws[k].history, t, j)
  {
    hide Of, Place, Enabled, Apply;
    var h, h' := ws[b].history, ws[k].history;
    HistoryGrows(count, n, ws, ms, b, k);
    RunKeepsGood(count, n, ws, ms, b);
    BegunOrReturned(count, n, ws, ms, b, t);
    BegunOrReturned(count, n, ws, ms, b, u);
    OfGrows(h, h', u);
    PlaceStays(h, h', u, i);
    PlaceStays(h, h', t, j);
  }

  /** It can happen: one thread's decrement reads zero, another thread's increment
      takes effect and returns, and only then does the first thread abort. Under the
      lock the increment could not have returned. */
  lemma AbortOvertaken() returns (ws: seq<World>, ms: seq<Move>)
    ensures Run(0, 2, ws, ms) && |ws| == 8 && ws[7].aborted
    ensures ws[7].history == [Event(0, Dec, Aborted), Event(1, Inc, Done)] && ws[7].completed == [Event(1, Inc, Done)]
    ensures Replay(0, ws[7].history) == None
  {
    var w0 := World(0, seq(2, _ => Idle), [], [], false);
    var w1 := Apply(w0, Begin(0, Dec));
    var w2 := Apply(w1, Load(0));
    var w3 := Apply(w2, Begin(1, Inc));
    var w4 := Apply(w3, Load(1));
    var w5 := Apply(w4, Swap(1, false));
    var w6 := Apply(w5, Return(1));
    var w7 := Apply(w6, Return(0));
    ms := [Begin(0, Dec), Load(0), Begin(1, Inc), Load(1), Swap(1, false), Return(1), Return(0)];
    ws := [w0, w1, w2, w3, w4, w5, w6, w7];
    RunKeepsGood(0, 2, ws, ms, 7);
    ReplayExactly(0, w7.history);
    assert w7.history[0].ret == Aborted;
  }

  // ----- operations do take effect -----

  /** The form under the lock in numbers: it counts up to 2^32 - 1 and stays there,
      and a count of zero cannot be taken from. */
  lemma StepInNumbers(n: nat)
    ensures n < 0xFFFF_FFFF ==> Step(n, Inc) == (n + 1, Done)
    ensures 1 < n < 0xFFFF_FFFF ==> Step(n, Dec) == (n - 1, NotZero)
    ensures Step(1, Dec) == (0, Zero) && Step(0, Dec) == (0, Aborted)
    ensures Step(0xFFFF_FFFF, Inc) == (0xFFFF_FFFF, Done) && Step(0xFFFF_FFFF, Dec) == (0xFFFF_FFFF, NotZero)
  {
  }

  /** In every reachable state a compare-and-swap that finds what it expects and does
      not fail for no reason lets the operation take effect, with its result and
      change under the lock; and so does the end of the loop on the maximum. */
  lemma SwapTakesEffect(count: nat, n: nat, ws: seq<World>, ms: seq<Move>, k: nat, t: nat)
    requires Run(count, n, ws, ms) && k < |ws| && t < |ws[k].threads| && ws[k].threads[t].Holding?
    ensures var w := ws[k]; var op := w.threads[t].op;
            forall m | m in {Swap(t, false), Stuck(t)} && Enabled(w, m) && w.threads[t].expected == w.count ::
              && Apply(w, m).history == w.history + [Event(t, op, Step(w.count, op).1)]
              && Apply(w, m).count == Step(w.count, op).0
              && Apply(w, m).threads == w.threads[t := Leaving(op, Step(w.count, op).1)]
    ensures var w := ws[k]; Enabled(w, Stuck(t)) ==> w.threads[t].expected == w.count
  {
    RunKeepsGood(count, n, ws, ms, k);
    assert PcOk(ws[k], ws[k].threads[t]);
  }

  /** The one move of a thread that is in an operation, if no swap fails for no
      reason. */
  function NextMove(w: World, t: nat): Move
    requires t < |w.threads| && !w.threads[t].Idle?
  {
    match w.threads[t]
    case Started(_) => Load(t)
    case Holding(_, expected, _) => if expected == MAX then Stuck(t) else Swap(t, false)
    case Leaving(_, _) => Return(t)
  }

  lemma OnlyMove(w: World, t: nat, m: Move)
    requires !w.aborted && t < |w.threads| && !w.threads[t].Idle?
    ensures Enabled(w, NextMove(w, t))
    ensures m.t == t && Enabled(w, m) && !(m.Swap? && m.spurious) ==> m == NextMove(w, t)
  {
  }

  /** A thread that runs alone completes its operation, from any count and whatever
      the others are in the middle of, with the result and the change that it has
      under the lock: it loads, swaps once or is stuck on the maximum, and returns. */
  lemma AloneCompletes(w: World, t: nat)
    requires w.count <= MAX && !w.aborted && t < |w.threads| && w.threads[t].Started?
    ensures var op := w.threads[t].op;
            var w1 := Apply(w, NextMove(w, t));
            var w2 := Apply(w1, NextMove(w1, t));
            if op.Dec? && w.count == 0 then w2.aborted && w2.count == 0
            else
              var w3 := Apply(w2, NextMove(w2, t));
              && w3.threads == w.threads[t := Idle] && !w3.aborted && w3.count == Step(w.count, op).0
              && w3.completed == w.completed + [Event(t, op, Step(w.count, op).1)]
              && w3.history == w.history + [Event(t, op, Step(w.count, op).1)]
  {
    var op := w.threads[t].op;
    var w1 := Apply(w, NextMove(w, t));
    var w2 := Apply(w1, NextMove(w1, t));
    if !(op.Dec? && w.count == 0) {
      var w3 := Apply(w2, NextMove(w2, t));
      assert w3.threads == w.threads[t := Idle];
    }
  }

  /** Some thread always gets on: a compare-and-swap fails with reason only if
      another operation has taken effect since the thread's last access. */
  lemma FailureMeansProgress(count: nat, n: nat, ws: seq<World>, ms: seq<Move>, k: nat, t: nat)
    requires Run(count, n, ws, ms) && k < |ws| && t < |ws[k].threads|
    requires ws[k].threads[t].Holding? && ws[k].threads[t].expected != ws[k].count
    ensures |ws[k].history| > ws[k].threads[t].seen
  {
    RunKeepsGood(count, n, ws, ms, k);
    assert PcOk(ws[k], ws[k].threads[t]);
  }

  /** The process aborts only if a decrement found the count at zero. */
  lemma AbortMeansZero(count: nat, n: nat, ws: seq<World>, ms: seq<Move>, k: nat)
    requires Run(count, n, ws, ms) && k < |ws| && ws[k].aborted
    ensures exists i :: 0 <= i < |ws[k].history| && ws[k].history[i].ret == Aborted
                        && Follow(count, ws[k].history[..i]) == Some(0)
  {
    RunKeepsGood(count, n, ws, ms, k);
    var t := AborterOf(count, n, ws, ms, k);
    var h := ws[k].history;
    assert Of(h, t) == Of(ws[k].completed, t) + Pending(ws[k], t);
    var i := LastOf(h, t);
    FallsReported(count, h, i);
    assert h[..i+1][..i] == h[..i];
  }

  /** Who aborted: a thread that is leaving with that result. */
  lemma {:induction false} AborterOf(count: nat, n: nat, ws: seq<World>, ms: seq<Move>, k: nat) returns (t: nat)
    requires Run(count, n, ws, ms) && k < |ws| && ws[k].aborted
    ensures t < |ws[k].threads| && ws[k].threads[t].Leaving? && ws[k].threads[t].ret == Aborted
  {
    t := ms[k-1].t;
  }

  /** A thread's last operation in the history. */
  lemma {:induction false} LastOf(h: seq<Event>, t: nat) returns (i: nat)
    requires Of(h, t) != []
    ensures i < |h| && h[i] == Of(h, t)[|Of(h, t)|-1]
  {
    if h[|h|-1].thread == t { i := |h| - 1; } else { i := LastOf(h[..|h|-1], t); }
  }

  // ----- who never aborts -----

  /** How many decrements were begun. */
  function Begun(ms: seq<Move>): nat {
    if ms == [] then 0
    else
      var m := ms[|ms|-1];
      Begun(ms[..|ms|-1]) + if m.Begin? && m.op.Dec? then 1 else 0
  }

  /** How many operations of a kind a history has. */
  function Count(h: seq<Event>, op: Op): nat {
    if h == [] then 0 else Count(h[..|h|-1], op) + if h[|h|-1].op == op then 1 else 0
  }

  /** How many threads stand at such a place. */
  function Number(threads: seq<Pc>, at: Pc -> bool): nat {
    if threads == [] then 0
    else Number(threads[..|threads|-1], at) + if at(threads[|threads|-1]) then 1 else 0
  }

  /** In a decrement that has not taken effect. */
  predicate Waits(pc: Pc) { (pc.Started? || pc.Holding?) && pc.op.Dec? }

  /** Past an increment that has not returned. */
  predicate Leaves(pc: Pc) { pc.Leaving? && pc.op.Inc? }

  lemma {:induction false} NumberUpdated(threads: seq<Pc>, t: nat, pc: Pc, at: Pc -> bool)
    requires t < |threads|
    ensures Number(threads[t := pc], at) + (if at(threads[t]) then 1 else 0)
         == Number(threads, at) + (if at(pc) then 1 else 0)
    ensures at(threads[t]) ==> Number(threads, at) >= 1
  {
    var n := |threads| - 1;
    if t < n {
      NumberUpdated(threads[..n], t, pc, at);
      assert threads[t := pc][..n] == threads[..n][t := pc];
    } else {
      assert threads[t := pc][..n] == threads[..n];
    }
  }

  lemma CountAppend(h: seq<Event>, e: Event, op: Op)
    ensures Count(h + [e], op) == Count(h, op) + if e.op == op then 1 else 0
  {
    assert (h + [e])[..|h|] == h;
  }

  lemma {:induction false} AllIdle(n: nat, at: Pc -> bool)
    requires !at(Idle)
    ensures Number(seq(n, _ => Idle), at) == 0
  {
    if n > 0 {
      AllIdle(n - 1, at);
      assert seq(n, _ => Idle)[..n-1] == seq(n - 1, _ => Idle);
    }
  }

  /** Every decrement begun has taken effect or waits; every increment that has
      taken effect has returned or leaves. */
  ghost predicate Balanced(w: World, begun: nat) {
    && begun == Count(w.history, Dec) + Number(w.threads, Waits)
    && Count(w.history, Inc) == Count(w.completed, Inc) + Number(w.threads, Leaves)
  }

  lemma CommitKeepsBalanced(w: World, begun: nat, t: nat, op: Op, ret: Ret, c: nat)
    requires Balanced(w, begun) && t < |w.threads| && (w.threads[t].Started? || w.threads[t].Holding?)
             && w.threads[t].op == op
    ensures Balanced(Commit(w.(count := c), t, op, ret), begun)
  {
    NumberUpdated(w.threads, t, Leaving(op, ret), Waits);
    NumberUpdated(w.threads, t, Leaving(op, ret), Leaves);
    CountAppend(w.history, Event(t, op, ret), Dec);
    CountAppend(w.history, Event(t, op, ret), Inc);
  }

  lemma ReadKeepsBalanced(w: World, begun: nat, t: nat, op: Op)
    requires Balanced(w, begun) && t < |w.threads| && (w.threads[t].Started? || w.threads[t].Holding?)
             && w.threads[t].op == op
    ensures Balanced(Read(w, t, op), begun)
  {
    if op.Dec? && w.count == 0 {
      CommitKeepsBalanced(w, begun, t, op, Aborted, w.count);
    } else {
      var pc := Holding(op, w.count, |w.history|);
      NumberUpdated(w.threads, t, pc, Waits);
      NumberUpdated(w.threads, t, pc, Leaves);
    }
  }

  lemma MoveKeepsBalanced(w: World, begun: nat, m: Move)
    requires Balanced(w, begun) && Enabled(w, m)
    ensures Balanced(Apply(w, m), begun + if m.Begin? && m.op.Dec? then 1 else 0)
  {
    hide Balanced, Number, Count;
    var pc := w.threads[m.t];
    match m
    case Begin(t, op) => BeginKeepsBalanced(w, begun, t, op);
    case Load(t) => ReadKeepsBalanced(w, begun, t, pc.op);
    case Stuck(t) => CommitKeepsBalanced(w, begun, t, pc.op, if pc.op.Inc? then Done else NotZero, w.count);
    case Swap(t, spurious) =>
      if spurious || w.count != pc.expected {
        ReadKeepsBalanced(w, begun, t, pc.op);
      } else {
        var c := New(pc.op, pc.expected);
        var count := if c < 0 then 0 else c;
        CommitKeepsBalanced(w, begun, t, pc.op, if pc.op.Inc? then Done else if count == 0 then Zero else NotZero,
            count);
      }
    case Return(t) => ReturnKeepsBalanced(w, begun, t);
  }

  lemma BeginKeepsBalanced(w: World, begun: nat, t: nat, op: Op)
    requires Balanced(w, begun) && t < |w.threads| && w.threads[t].Idle?
    ensures Balanced(w.(threads := w.threads[t := Started(op)]), begun + if op.Dec? then 1 else 0)
  {
    NumberUpdated(w.threads, t, Started(op), Waits);
    NumberUpdated(w.threads, t, Started(op), Leaves);
  }

  lemma ReturnKeepsBalanced(w: World, begun: nat, t: nat)
    requires Balanced(w, begun) && Enabled(w, Return(t))
    ensures Balanced(Apply(w, Return(t)), begun)
  {
    hide Number, Count;
    var pc := w.threads[t];
    NumberUpdated(w.threads, t, Idle, Waits);
    NumberUpdated(w.threads, t, Idle, Leaves);
    CountAppend(w.completed, Event(t, pc.op, pc.ret), Inc);
  }

  lemma {:induction false} RunKeepsBalanced(count: nat, n: nat, ws: seq<World>, ms: seq<Move>, k: nat)
    requires Run(count, n, ws, ms) && k < |ws|
    ensures Balanced(ws[k], Begun(ms[..k]))
  {
    hide Enabled, Apply;
    if k == 0 {
      AllIdle(n, Waits);
      AllIdle(n, Leaves);
    } else {
      RunKeepsBalanced(count, n, ws, ms, k - 1);
      MoveKeepsBalanced(ws[k-1], Begun(ms[..k-1]), ms[k-1]);
      assert ms[..k][..k-1] == ms[..k-1];
    }
  }

  predicate NoAbort(h: seq<Event>) { forall i :: 0 <= i < |h| ==> h[i].ret != Aborted }

  lemma {:induction false} NetWithoutAbort(h: seq<Event>)
    requires NoAbort(h)
    ensures Net(h) == Count(h, Inc) - Count(h, Dec)
  {
    if h != [] { NetWithoutAbort(h[..|h|-1]); }
  }

  /** The references are covered: at all times, every decrement begun is one that the
      initial count or a returned increment stands for. */
  ghost predicate Covered(count: nat, ws: seq<World>, ms: seq<Move>, k: nat)
    requires k < |ws| && k <= |ms|
  {
    forall j :: 0 <= j <= k ==> count + Count(ws[j].completed, Inc) >= Begun(ms[..j])
  }

  /** Then no decrement ever reads zero: none aborts, and the whole history is one of
      the form under the lock. */
  lemma {:induction false} CoveredNeverAborts(count: nat, n: nat, ws: seq<World>, ms: seq<Move>, k: nat)
    requires Run(count, n, ws, ms) && k < |ws| && Covered(count, ws, ms, k)
    ensures NoAbort(ws[k].history) && !ws[k].aborted
    ensures Replay(count, ws[k].history) == Some(ws[k].count)
  {
    hide Good, Balanced, PcOk;
    RefinesLock(count, n, ws, ms, k);
    if k > 0 {
      CoveredNeverAborts(count, n, ws, ms, k - 1);
      var w, m := ws[k-1], ms[k-1];
      RunKeepsGood(count, n, ws, ms, k - 1);
      RunKeepsBalanced(count, n, ws, ms, k - 1);
      CoveredCount(count, w, Begun(ms[..k-1]));
      MoveNeverAborts(count, w, m);
    }
  }

  /** A waiting decrement finds the count above zero. */
  lemma CoveredCount(count: nat, w: World, begun: nat)
    requires Good(count, w) && Balanced(w, begun) && count <= MAX && NoAbort(w.history)
    requires count + Count(w.completed, Inc) >= begun
    ensures Number(w.threads, Waits) >= 1 ==> w.count >= 1
  {
    CountIsNet(count, w.history);
    NetWithoutAbort(w.history);
  }

  lemma MoveNeverAborts(count: nat, w: World, m: Move)
    requires Good(count, w) && Enabled(w, m) && NoAbort(w.history) && (Number(w.threads, Waits) >= 1 ==> w.count >= 1)
    ensures NoAbort(Apply(w, m).history) && !Apply(w, m).aborted
  {
    hide Follow, Of;
    var pc := w.threads[m.t];
    NumberUpdated(w.threads, m.t, Idle, Waits);
    if m.Return? && pc.ret == Aborted { LeavingIsListed(w, m.t); }
  }

  lemma LeavingIsListed(w: World, t: nat)
    requires t < |w.threads| && w.threads[t].Leaving? && Of(w.history, t) == Of(w.completed, t) + Pending(w, t)
    ensures exists i :: 0 <= i < |w.history| && w.history[i].ret == w.threads[t].ret
  {
    var i := LastOf(w.history, t);
  }
}
