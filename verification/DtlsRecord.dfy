/** The DTLS record layer's sequence numbers: the replay window on the reading
    side (dtls_record.cc:126-272) and the per-epoch counters on the writing side
    (dtls_record.cc:294-351, dtls_method.cc:81-107). Sections 4.1 and 4.1.2.6 of
    RFC 6347. */
module DtlsRecord {
  import opened Bits
  import opened Bytes

  const WINDOW: nat := 64
  const TWO48 := 0x1_0000_0000_0000
  const TWO64 := 0x1_0000_0000_0000_0000

  // ----- eight-byte numbers -----

  /** The number that a big-endian string of bytes stands for. */
  function BigEndian(s: seq<byte>): nat {
    if s == [] then 0 else 256 * BigEndian(s[..|s|-1]) + s[|s|-1]
  }

  lemma {:induction false} BigEndianBound(s: seq<byte>)
    ensures BigEndian(s) < Pow256(|s|)
  {
    if s != [] { BigEndianBound(s[..|s|-1]); }
  }

  /** Different sequence numbers of the same width have different values. */
  lemma {:induction false} BigEndianInjective(s: seq<byte>, t: seq<byte>)
    requires |s| == |t| && BigEndian(s) == BigEndian(t)
    ensures s == t
  {
    if s != [] {
      BigEndianInjective(s[..|s|-1], t[..|t|-1]);
      assert s == s[..|s|-1] + [s[|s|-1]] && t == t[..|t|-1] + [t[|t|-1]];
    }
  }

  lemma OrByte(a: nat, b: byte)
    ensures Or(a * Pow2(8), b) == a * 256 + b
  {
    assert Pow2(8) == 256 by { assert Pow2(4) == 16; Pow2Add(4, 4); }
    OrAboveIsPlus(b, 8, a);
    OrCommutes(a * Pow2(8), b);
  }

  lemma {:induction false} OrCommutes(a: nat, b: nat)
    ensures Or(a, b) == Or(b, a)
    decreases a + b
  {
    if a == 0 {
      OrZero(b);
    } else if b == 0 {
      OrZero(a);
    } else {
      OrCommutes(a / 2, b / 2);
    }
  }

  lemma {:induction false} OrZero(a: nat)
    ensures Or(a, 0) == a
  {
    if a != 0 { OrZero(a / 2); }
  }

  /** to_u64_be. */
  method ToU64Be(bytes: seq<byte>) returns (ret: nat)
    requires |bytes| == 8
    ensures ret == BigEndian(bytes) < TWO64
  {
    ret := 0;
    BigEndianBound(bytes);
    assert bytes[..8] == bytes;
    assert Pow256(8) == TWO64 by { Pow256Values(); }
    for i := 0 to 8
      invariant ret == BigEndian(bytes[..i]) < Pow256(i)
    {
      BigEndianBound(bytes[..i]);
      assert bytes[..i+1][..i] == bytes[..i];
      OrByte(ret, bytes[i]);
      ret := Or(ret * Pow2(8), bytes[i]);
    }
  }

  lemma Pow256Values()
    ensures Pow256(6) == TWO48 && Pow256(8) == TWO64
  {
    assert Pow256(2) == 0x1_0000;
    assert Pow256(4) == 0x1_0000_0000;
  }

  /** Adding one to a big-endian string, and whether it did not wrap. */
  function Increment(s: seq<byte>): (bool, seq<byte>) {
    if s == [] then (false, [])
    else
      var n := |s| - 1;
      if s[n] < 255 then (true, s[..n] + [s[n] + 1])
      else var (ok, t) := Increment(s[..n]); (ok, t + [0])
  }

  lemma {:induction false} IncrementAdds(s: seq<byte>)
    ensures |Increment(s).1| == |s|
    ensures Increment(s).0 <==> BigEndian(s) + 1 < Pow256(|s|)
    ensures BigEndian(Increment(s).1) == if Increment(s).0 then BigEndian(s) + 1 else 0
  {
    if s != [] {
      var n := |s| - 1;
      IncrementAdds(s[..n]);
      BigEndianBound(s[..n]);
      var t := Increment(s).1;
      assert t[..n] == if s[n] < 255 then s[..n] else Increment(s[..n]).1;
    }
  }

  /** The last number of a prefix either carries into the one before or does not. */
  lemma Carries(was: seq<byte>, i: nat)
    requires i < |was|
    ensures was[i] == 255 ==> Increment(was[..i+1]) == (Increment(was[..i]).0, Increment(was[..i]).1 + [0])
    ensures was[i] < 255 ==> Increment(was[..i+1]) == (true, was[..i] + [was[i] + 1])
  {
    assert was[..i+1][..i] == was[..i];
  }

  lemma SetLast(now: seq<byte>, was: seq<byte>, i: nat, x: byte, n: nat)
    requires i < |was| && now == was[..i+1] + Zeros(n)
    ensures now[i := x] == was[..i] + [x] + Zeros(n) && now[i] == was[i]
    ensures x == 0 ==> now[i := x] == was[..i] + Zeros(n + 1)
  {
  }

  lemma MoreZeros(t: seq<byte>, n: nat)
    ensures (t + [0]) + Zeros(n) == t + Zeros(n + 1)
  {
  }

  /** ssl_record_sequence_update (tls_record.cc:154-163): add one, in place; it
      fails exactly when the number wraps to zero. */
  method SequenceUpdate(s: array<byte>) returns (ok: bool)
    modifies s
    ensures ok <==> BigEndian(old(s[..])) + 1 < Pow256(s.Length)
    ensures BigEndian(s[..]) == if ok then BigEndian(old(s[..])) + 1 else 0
  {
    hide Increment, Zeros, BigEndian, Pow256;
    ghost var was, result := s[..], Increment(s[..]);
    IncrementAdds(was);
    var i := s.Length;
    assert was[..i] == was;
    assert was + Zeros(0) == was && result.1 + Zeros(0) == result.1;
    while i > 0
      invariant 0 <= i <= s.Length
      invariant s[..] == was[..i] + Zeros(s.Length - i)
      invariant result == (Increment(was[..i]).0, Increment(was[..i]).1 + Zeros(s.Length - i))
    {
      i := i - 1;
      ghost var now, n := s[..], s.Length - i - 1;
      Carries(was, i);
      SetLast(now, was, i, if was[i] == 255 then 0 else was[i] + 1, n);
      s[i] := if s[i] == 255 then 0 else s[i] + 1;
      assert s[..] == now[i := s[i]];
      if s[i] != 0 { return true; }
      MoreZeros(Increment(was[..i]).1, n);
    }
    AllCarried(was);
    ok := false;
  }

  lemma AllCarried(was: seq<byte>)
    ensures Increment(was[..0]) == (false, []) && was[..0] + Zeros(|was|) == Zeros(|was|) == [] + Zeros(|was|)
  {
  }

  // ----- the replay window -----

  /** DTLS1_BITMAP. */
  datatype Window = Window(bits: nat, max: nat)

  const NO_RECORDS := Window(0, 0)

  predicate ShouldDiscard(w: Window, n: nat) {
    n <= w.max && (w.max - n >= WINDOW || Bit(w.bits, w.max - n))
  }

  /** dtls1_bitmap_record. */
  function Record(w: Window, n: nat): Window {
    if n > w.max then
      var shift := n - w.max;
      var slid := if shift >= WINDOW then 0 else Shl(w.bits, shift, WINDOW);
      Window(Or(slid, Pow2(0)), n)
    else if w.max - n < WINDOW then Window(Or(w.bits, Pow2(w.max - n)), w.max)
    else w
  }

  /** The window answers for a set of recorded numbers: it discards exactly those
      numbers and the ones that are a window's width below the largest. */
  ghost predicate Answers(w: Window, recorded: set<nat>) {
    && (recorded == {} ==> w == NO_RECORDS)
    && (recorded != {} ==> w.max in recorded)
    && (forall n :: n in recorded ==> n <= w.max)
    && forall i :: 0 <= i < WINDOW && i <= w.max ==> (Bit(w.bits, i) <==> w.max - i in recorded)
  }

  /** Discarding is membership or staleness. */
  lemma DiscardsExactly(w: Window, recorded: set<nat>, n: nat)
    requires Answers(w, recorded)
    ensures ShouldDiscard(w, n) <==> n in recorded || n + WINDOW <= w.max
  {
    if n <= w.max && w.max - n < WINDOW { assert w.max - (w.max - n) == n; }
  }

  /** Recording a number that was not discarded keeps the window exact. */
  lemma RecordKeeps(w: Window, recorded: set<nat>, n: nat)
    requires Answers(w, recorded) && !ShouldDiscard(w, n)
    ensures Answers(Record(w, n), recorded + {n})
  {
    hide Pow2, Or, Bit, Shl;
    var w' := Record(w, n);
    forall i | 0 <= i < WINDOW && i <= w'.max ensures Bit(w'.bits, i) <==> w'.max - i in recorded + {n} {
      if n > w.max {
        var shift := n - w.max;
        BitOfOr(if shift >= WINDOW then 0 else Shl(w.bits, shift, WINDOW), Pow2(0), i);
        BitOfPow2(0, i);
        BitOfZero(i);
        BitOfShl(w.bits, shift, WINDOW, i);
        if i >= shift {
          assert w.max - (i - shift) == n - i;
        }
      } else {
        BitOfOr(w.bits, Pow2(w.max - n), i);
        BitOfPow2(w.max - n, i);
      }
    }
  }

  // ----- the reading side over whole runs -----

  /** What happens to the reading side: a record with a 64-bit number (epoch and
      sequence) arrives and does or does not decrypt, or the epoch changes. */
  datatype ReadEvent = Arrives(number: nat, authentic: bool) | NewReadEpoch

  datatype Reader = Reader(epoch: nat, window: Window)

  predicate Accepts(r: Reader, e: ReadEvent) {
    e.Arrives? && e.number / TWO48 == r.epoch && !ShouldDiscard(r.window, e.number) && e.authentic
  }

  function ReadStep(r: Reader, e: ReadEvent): Reader {
    if e.NewReadEpoch? then Reader((r.epoch + 1) % 0x1_0000, NO_RECORDS)
    else if Accepts(r, e) then r.(window := Record(r.window, e.number))
    else r
  }

  function ReadRun(es: seq<ReadEvent>): Reader {
    if es == [] then Reader(0, NO_RECORDS) else ReadStep(ReadRun(es[..|es|-1]), es[|es|-1])
  }

  /** The numbers accepted since the last epoch change. */
  function Recorded(es: seq<ReadEvent>): set<nat> {
    if es == [] then {}
    else
      var e, before := es[|es|-1], es[..|es|-1];
      if e.NewReadEpoch? then {}
      else if Accepts(ReadRun(before), e) then Recorded(before) + {e.number}
      else Recorded(before)
  }

  function EpochChanges(es: seq<ReadEvent>): nat {
    if es == [] then 0 else EpochChanges(es[..|es|-1]) + if es[|es|-1].NewReadEpoch? then 1 else 0
  }

  /** In every reachable state the window stands for the set of numbers recorded
      since the last epoch change. */
  lemma {:induction false} WindowRefinesSet(es: seq<ReadEvent>)
    ensures Answers(ReadRun(es).window, Recorded(es))
  {
    hide Record;
    if es != [] {
      var e, before := es[|es|-1], es[..|es|-1];
      WindowRefinesSet(before);
      if Accepts(ReadRun(before), e) { RecordKeeps(ReadRun(before).window, Recorded(before), e.number); }
      forall i | 0 <= i < WINDOW ensures !Bit(0, i) { BitOfZero(i); }
    }
  }

  /** So an authentic record of the current epoch is refused iff its number was
      recorded in this epoch or is 64 or more below one that was; and one
      that fails to decrypt, or is of another epoch, changes nothing. */
  lemma RefusedExactly(es: seq<ReadEvent>, e: ReadEvent)
    requires e.Arrives?
    ensures var r := ReadRun(es);
            && (e.authentic && e.number / 0x1_0000_0000_0000 == r.epoch ==>
                  (Accepts(r, e) <==> forall n :: n in Recorded(es) ==> n != e.number && n < e.number + 64))
            && (!e.authentic || e.number / 0x1_0000_0000_0000 != r.epoch ==> ReadRun(es + [e]) == r)
  {
    WindowRefinesSet(es);
    DiscardsExactly(ReadRun(es).window, Recorded(es), e.number);
    assert (es + [e])[..|es|] == es;
  }

  /** The record at position i of a run was accepted. */
  predicate AcceptedAt(es: seq<ReadEvent>, i: nat)
    requires i < |es|
  {
    Accepts(ReadRun(es[..i]), es[i])
  }

  lemma {:induction false} EpochIsCount(es: seq<ReadEvent>)
    requires EpochChanges(es) < 0x1_0000
    ensures ReadRun(es).epoch == EpochChanges(es)
  {
    if es != [] { EpochIsCount(es[..|es|-1]); }
  }

  lemma {:induction false} ChangesMonotone(es: seq<ReadEvent>, i: nat)
    requires i <= |es|
    ensures EpochChanges(es[..i]) <= EpochChanges(es)
    decreases |es| - i
  {
    if i == |es| {
      assert es[..i] == es;
    } else {
      ChangesMonotone(es, i + 1);
      assert es[..i+1][..i] == es[..i];
    }
  }

  /** An accepted number is remembered until the epoch changes. */
  lemma {:induction false} Remembered(es: seq<ReadEvent>, i: nat)
    requires i < |es| && AcceptedAt(es, i)
    requires EpochChanges(es[..i]) == EpochChanges(es)
    ensures es[i].number in Recorded(es)
  {
    var n := |es| - 1;
    if i < n {
      var before := es[..n];
      assert before[..i] == es[..i];
      ChangesMonotone(before, i);
      Remembered(before, i);
    }
  }

  /** No record is accepted twice, over every run whose epoch does not wrap. */
  lemma AcceptedOnce(es: seq<ReadEvent>, i: nat, j: nat)
    requires i < j < |es| && EpochChanges(es) < 0x1_0000
    requires AcceptedAt(es, i) && AcceptedAt(es, j)
    ensures es[i].number != es[j].number
  {
    var p := es[..j];
    assert p[..i] == es[..i] && p[i] == es[i];
    ChangesMonotone(es, j);
    ChangesMonotone(p, i);
    EpochIsCount(p);
    EpochIsCount(p[..i]);
    if es[i].number == es[j].number {
      Remembered(p, i);
      WindowRefinesSet(p);
      DiscardsExactly(ReadRun(p).window, Recorded(p), es[j].number);
      assert false;
    }
  }

  // ----- the writing side over whole runs -----

  /** A record is sealed with the current or the previous epoch's keys (and the
      AEAD may fail), or the epoch changes. */
  datatype WriteEvent = Seal(previous: bool, sealed: bool) | NewWriteEpoch

  datatype Writer = Writer(epoch: nat, sequence: nat, lastSequence: nat)

  /** Sealing in the previous epoch requires that there is one. */
  predicate Permitted(w: Writer, e: WriteEvent) { e.Seal? && e.previous ==> w.epoch >= 1 }

  /** The epoch and sequence number that dtls_seal_record hands to the AEAD. */
  function Nonce(w: Writer, e: WriteEvent): (int, nat)
    requires e.Seal?
  {
    if e.previous then (w.epoch - 1, w.lastSequence) else (w.epoch, w.sequence)
  }

  /** The 48-bit counter after use. */
  function Bumped(n: nat): nat { (n + 1) % TWO48 }

  function WriteStep(w: Writer, e: WriteEvent): Writer {
    match e
    case NewWriteEpoch => Writer((w.epoch + 1) % 0x1_0000, 0, w.sequence)
    case Seal(previous, sealed) =>
      if !sealed then w
      else if previous then w.(lastSequence := Bumped(w.lastSequence))
      else w.(sequence := Bumped(w.sequence))
  }

  /** dtls_seal_record fails after using up the last number of an epoch. */
  predicate Overflows(w: Writer, e: WriteEvent) {
    e.Seal? && e.sealed && Nonce(w, e).1 == TWO48 - 1
  }

  function WriteRun(es: seq<WriteEvent>): Writer {
    if es == [] then Writer(0, 0, 0) else WriteStep(WriteRun(es[..|es|-1]), es[|es|-1])
  }

  predicate UsesNonce(es: seq<WriteEvent>, i: nat)
    requires i < |es|
  {
    es[i].Seal? && es[i].sealed
  }

  function NonceAt(es: seq<WriteEvent>, i: nat): (int, nat)
    requires i < |es| && UsesNonce(es, i)
  {
    Nonce(WriteRun(es[..i]), es[i])
  }

  function WriteEpochs(es: seq<WriteEvent>): nat {
    if es == [] then 0 else WriteEpochs(es[..|es|-1]) + if es[|es|-1].NewWriteEpoch? then 1 else 0
  }

  /** A run before any counter overflow, any epoch wrap, and any use of a
      previous epoch that does not exist. */
  ghost predicate InBounds(es: seq<WriteEvent>) {
    WriteEpochs(es) < 0x1_0000
    && forall i :: 0 <= i < |es| ==> Permitted(WriteRun(es[..i]), es[i]) && !Overflows(WriteRun(es[..i]), es[i])
  }

  /** Counters below which all numbers are used, per epoch: what the run keeps. */
  ghost predicate NoncesBelow(es: seq<WriteEvent>) {
    var w := WriteRun(es);
    && w.epoch == WriteEpochs(es) && w.sequence < TWO48 && w.lastSequence < TWO48
    && (forall i :: 0 <= i < |es| && UsesNonce(es, i) ==>
          Below(w, NonceAt(es, i).0, NonceAt(es, i).1))
  }

  /** The number is behind the counters. */
  predicate Below(w: Writer, epoch: int, n: nat) {
    epoch <= w.epoch && (epoch == w.epoch ==> n < w.sequence) && (epoch == w.epoch - 1 ==> n < w.lastSequence)
  }

  lemma InBoundsPrefix(es: seq<WriteEvent>)
    requires es != [] && InBounds(es)
    ensures InBounds(es[..|es|-1])
  {
    var p := es[..|es|-1];
    forall i | 0 <= i < |p| ensures Permitted(WriteRun(p[..i]), p[i]) && !Overflows(WriteRun(p[..i]), p[i]) {
      assert p[..i] == es[..i];
    }
  }

  /** One event keeps the counters above every number used. */
  lemma StepStaysBelow(w: Writer, e: WriteEvent, epoch: int, n: nat)
    requires w.sequence < TWO48 && w.lastSequence < TWO48 && (e.NewWriteEpoch? ==> w.epoch < 0xFFFF)
    requires Permitted(w, e) && !Overflows(w, e)
    requires Below(w, epoch, n) || (e.Seal? && e.sealed && (epoch, n) == Nonce(w, e))
    ensures Below(WriteStep(w, e), epoch, n)
  {
  }

  lemma StepInRange(w: Writer, e: WriteEvent)
    requires w.sequence < TWO48 && w.lastSequence < TWO48
    ensures WriteStep(w, e).sequence < TWO48 && WriteStep(w, e).lastSequence < TWO48
  {
  }

  lemma {:induction false} NoncesStayBelow(es: seq<WriteEvent>)
    requires InBounds(es)
    ensures NoncesBelow(es)
  {
    hide Nonce, Overflows, Below, Permitted, WriteStep, Bumped;
    if es != [] {
      var p := es[..|es|-1];
      var w, e := WriteRun(p), es[|p|];
      InBoundsPrefix(es);
      NoncesStayBelow(p);
      assert es[..|p|] == p;
      assert Permitted(w, e) && !Overflows(w, e);
      StepInRange(w, e);
      StepPrevious(w, e);
      forall i | 0 <= i < |es| && UsesNonce(es, i)
        ensures Below(WriteRun(es), NonceAt(es, i).0, NonceAt(es, i).1)
      {
        assert es[..i] == p[..i];
        if i < |p| { assert UsesNonce(p, i) && NonceAt(p, i) == NonceAt(es, i); }
        StepStaysBelow(w, e, NonceAt(es, i).0, NonceAt(es, i).1);
      }
    }
  }

  /** No two records are sealed with the same epoch and sequence number, over any
      interleaving of seals in both epochs and epoch changes. */
  lemma {:induction false} NoncesUnique(es: seq<WriteEvent>, i: nat, j: nat)
    requires InBounds(es) && i < j < |es| && UsesNonce(es, i) && UsesNonce(es, j)
    ensures NonceAt(es, i) != NonceAt(es, j)
  {
    if j < |es| - 1 {
      var p := es[..|es|-1];
      InBoundsPrefix(es);
      assert p[..i] == es[..i] && p[..j] == es[..j];
      NoncesUnique(p, i, j);
    } else {
      var p := es[..j];
      InBoundsPrefix(es);
      NoncesStayBelow(p);
      assert p[..i] == es[..i];
      assert UsesNonce(p, i) && NonceAt(p, i) == NonceAt(es, i);
    }
  }

  /** Every number below the current counter has been used in this epoch. */
  lemma {:induction false} UsedBelow(es: seq<WriteEvent>, n: nat) returns (i: nat)
    requires InBounds(es) && n < WriteRun(es).sequence
    ensures i < |es| && UsesNonce(es, i) && NonceAt(es, i) == (WriteRun(es).epoch, n)
  {
    var p := es[..|es|-1];
    InBoundsPrefix(es);
    assert es[..|p|] == p;
    var w, e := WriteRun(p), es[|p|];
    assert Permitted(w, e) && !Overflows(w, e);
    if e.Seal? && e.sealed && !e.previous && n == w.sequence {
      i := |p|;
    } else {
      NoncesStayBelow(p);
      StepDown(w, e);
      i := UsedBelow(p, n);
      assert p[..i] == es[..i];
    }
  }

  /** Only a successful seal in the current epoch moves its counter. */
  lemma StepDown(w: Writer, e: WriteEvent)
    requires w.sequence < TWO48 && !Overflows(w, e)
    ensures !e.NewWriteEpoch? ==> WriteStep(w, e).epoch == w.epoch
    ensures WriteStep(w, e).sequence
         == if e.NewWriteEpoch? then 0 else w.sequence + if e.sealed && !e.previous then 1 else 0
  {
  }

  /** The bound is exact: dtls_seal_record reports the overflow, and sealing on in
      the same epoch after it reuses the epoch's first number. */
  lemma OverflowReuses(es: seq<WriteEvent>) returns (i: nat)
    requires InBounds(es) && WriteRun(es).sequence == TWO48 - 1
    ensures var more := es + [Seal(false, true), Seal(false, true)];
            Overflows(WriteRun(more[..|es|]), more[|es|])
            && i < |es| && UsesNonce(more, i) && NonceAt(more, i) == NonceAt(more, |es| + 1)
  {
    i := UsedBelow(es, 0);
    var more := es + [Seal(false, true), Seal(false, true)];
    assert more[..|es|] == es && more[..i] == es[..i];
    assert more[..|es| + 1][..|es|] == es;
  }

  /** Every number below the previous epoch's counter has been used in that epoch. */
  lemma {:induction false} UsedBelowPrevious(es: seq<WriteEvent>, n: nat) returns (i: nat)
    requires InBounds(es) && WriteRun(es).epoch >= 1 && n < WriteRun(es).lastSequence
    ensures i < |es| && UsesNonce(es, i) && NonceAt(es, i) == (WriteRun(es).epoch - 1, n)
  {
    hide InBounds, NoncesBelow, WriteStep, Nonce, Overflows, Permitted;
    var p, w, e := LastStep(es);
    if e.NewWriteEpoch? {
      i := UsedBelow(p, n);
      SameNonce(es, i);
    } else if e.sealed && e.previous && n == w.lastSequence {
      i := |p|;
    } else {
      i := UsedBelowPrevious(p, n);
      SameNonce(es, i);
    }
  }

  lemma SameNonce(es: seq<WriteEvent>, i: nat)
    requires i < |es| - 1 && UsesNonce(es[..|es|-1], i)
    ensures UsesNonce(es, i) && NonceAt(es, i) == NonceAt(es[..|es|-1], i)
  {
    assert es[..|es|-1][..i] == es[..i];
  }

  /** The last event of a run, and what it does to the previous epoch's counter. */
  lemma LastStep(es: seq<WriteEvent>) returns (p: seq<WriteEvent>, w: Writer, e: WriteEvent)
    requires InBounds(es) && es != []
    ensures p == es[..|es|-1] && w == WriteRun(p) && e == es[|p|] && InBounds(p) && WriteRun(es) == WriteStep(w, e)
    ensures WriteRun(es).epoch == w.epoch + if e.NewWriteEpoch? then 1 else 0
    ensures WriteRun(es).lastSequence
         == if e.NewWriteEpoch? then w.sequence else w.lastSequence + if e.sealed && e.previous then 1 else 0
    ensures e.Seal? && e.previous ==> Nonce(w, e) == (w.epoch - 1, w.lastSequence)
  {
    p := es[..|es|-1];
    w, e := WriteRun(p), es[|p|];
    InBoundsPrefix(es);
    NoncesStayBelow(p);
    assert es[..|p|] == p;
    assert Permitted(w, e) && !Overflows(w, e);
    StepPrevious(w, e);
  }

  /** What one event does to the previous epoch's counter. */
  lemma StepPrevious(w: Writer, e: WriteEvent)
    requires w.sequence < TWO48 && w.lastSequence < TWO48 && (e.NewWriteEpoch? ==> w.epoch < 0xFFFF)
    requires Permitted(w, e) && !Overflows(w, e)
    ensures WriteStep(w, e).epoch == w.epoch + if e.NewWriteEpoch? then 1 else 0
    ensures WriteStep(w, e).lastSequence
         == if e.NewWriteEpoch? then w.sequence else w.lastSequence + if e.sealed && e.previous then 1 else 0
    ensures e.Seal? && e.previous ==> Nonce(w, e) == (w.epoch - 1, w.lastSequence)
  {
  }

  /** The same for the counter of the previous epoch. */
  lemma PreviousOverflowReuses(es: seq<WriteEvent>) returns (i: nat)
    requires InBounds(es) && WriteRun(es).epoch >= 1 && WriteRun(es).lastSequence == TWO48 - 1
    ensures var more := es + [Seal(true, true), Seal(true, true)];
            Overflows(WriteRun(more[..|es|]), more[|es|])
            && i < |es| && UsesNonce(more, i) && NonceAt(more, i) == NonceAt(more, |es| + 1)
  {
    i := UsedBelowPrevious(es, 0);
    var more := es + [Seal(true, true), Seal(true, true)];
    assert more[..|es|] == es && more[..i] == es[..i];
    assert more[..|es| + 1][..|es|] == es;
    LastPrevious(WriteRun(es));
    hide Nonce, Overflows, WriteStep;
    assert NonceAt(more, |es| + 1) == Nonce(WriteStep(WriteRun(es), Seal(true, true)), Seal(true, true));
  }

  lemma LastPrevious(w: Writer)
    requires w.epoch >= 1 && w.lastSequence == TWO48 - 1
    ensures Overflows(w, Seal(true, true))
    ensures Nonce(WriteStep(w, Seal(true, true)), Seal(true, true)) == (w.epoch - 1, 0)
  {
  }

  /** When the 16-bit epoch wraps, the next record repeats a number exactly if epoch
      zero has used its first one; the code does not report it. */
  lemma EpochWrapReuses(es: seq<WriteEvent>)
    requires InBounds(es) && WriteEpochs(es) == 0xFFFF
    ensures var more := es + [NewWriteEpoch, Seal(false, true)];
            NonceAt(more, |es| + 1) == (0, 0)
            && forall i :: 0 <= i < |es| && UsesNonce(es, i) ==>
                 UsesNonce(more, i) && NonceAt(more, i) == NonceAt(es, i)
  {
    hide Nonce, InBounds, Overflows, Permitted, Below;
    NoncesStayBelow(es);
    var more := es + [NewWriteEpoch, Seal(false, true)];
    assert more[..|es| + 1] == es + [NewWriteEpoch] && (es + [NewWriteEpoch])[..|es|] == es;
    assert WriteRun(more[..|es| + 1]) == Writer(0, 0, WriteRun(es).sequence);
    NonceOfSeal(WriteRun(more[..|es| + 1]));
    forall i | 0 <= i < |es| && UsesNonce(es, i) ensures UsesNonce(more, i) && NonceAt(more, i) == NonceAt(es, i) {
      assert more[..i] == es[..i];
    }
  }

  lemma NonceOfSeal(w: Writer)
    ensures Nonce(w, Seal(false, true)) == (w.epoch, w.sequence)
  {
  }

  lemma InBoundsAppend(es: seq<WriteEvent>, e: WriteEvent)
    requires InBounds(es) && Permitted(WriteRun(es), e) && !Overflows(WriteRun(es), e)
    requires e.NewWriteEpoch? ==> WriteEpochs(es) < 0xFFFF
    ensures InBounds(es + [e]) && WriteRun(es + [e]) == WriteStep(WriteRun(es), e)
    ensures WriteEpochs(es + [e]) == WriteEpochs(es) + if e.NewWriteEpoch? then 1 else 0
  {
    hide Overflows, Permitted;
    var t := es + [e];
    assert t[..|es|] == es;
    forall i | 0 <= i < |t| ensures Permitted(WriteRun(t[..i]), t[i]) && !Overflows(WriteRun(t[..i]), t[i]) {
      assert i < |es| ==> t[..i] == es[..i] && t[i] == es[i];
    }
  }

  /** These bounds are reached: the current counter by sealing, */
  lemma {:induction false} CounterReached(n: nat) returns (es: seq<WriteEvent>)
    requires n < TWO48
    ensures InBounds(es) && WriteEpochs(es) == 0 && WriteRun(es) == Writer(0, n, 0)
  {
    es := [];
    if n > 0 {
      es := CounterReached(n - 1);
      InBoundsAppend(es, Seal(false, true));
      es := es + [Seal(false, true)];
    }
  }

  /** the previous one by an epoch change after it, */
  lemma PreviousCounterReached() returns (es: seq<WriteEvent>)
    ensures InBounds(es) && WriteRun(es) == Writer(1, 0, TWO48 - 1)
  {
    es := CounterReached(TWO48 - 1);
    InBoundsAppend(es, NewWriteEpoch);
    es := es + [NewWriteEpoch];
  }

  /** and the last epoch by epoch changes, with the first number of epoch zero
      used. */
  lemma {:induction false} EpochReached(n: nat) returns (es: seq<WriteEvent>)
    requires n < 0x1_0000
    ensures InBounds(es) && WriteEpochs(es) == n && es != [] && UsesNonce(es, 0) && NonceAt(es, 0) == (0, 0)
  {
    if n == 0 {
      InBoundsAppend([], Seal(false, true));
      es := [] + [Seal(false, true)];
      assert es[..0] == [];
    } else {
      var p := EpochReached(n - 1);
      InBoundsAppend(p, NewWriteEpoch);
      es := p + [NewWriteEpoch];
      assert es[..0] == p[..0];
    }
  }

  // ----- the connection's record state, updated in place -----

  datatype OpenResult = Opened | Discarded | Failed

  class RecordLayer {
    var rEpoch: nat
    var bitmap: nat
    var maxSeqNum: nat
    var wEpoch: nat
    var writeSequence: nat
    var lastWriteSequence: nat

    ghost function ReadSide(): Reader
      reads this
    {
      Reader(rEpoch, Window(bitmap, maxSeqNum))
    }

    ghost function WriteSide(): Writer
      reads this
    {
      Writer(wEpoch, writeSequence, lastWriteSequence)
    }

    constructor ()
      ensures ReadSide() == ReadRun([]) && WriteSide() == WriteRun([])
    {
      rEpoch, bitmap, maxSeqNum, wEpoch, writeSequence, lastWriteSequence := 0, 0, 0, 0, 0, 0;
    }

    /** dtls1_bitmap_should_discard. */
    method BitmapShouldDiscard(number: nat) returns (discard: bool)
      ensures discard <==> ShouldDiscard(Window(bitmap, maxSeqNum), number)
    {
      if number > maxSeqNum { return false; }
      var idx := maxSeqNum - number;
      return idx >= WINDOW || Bit(bitmap, idx);
    }

    /** dtls1_bitmap_record. */
    method BitmapRecord(number: nat)
      modifies this`bitmap, this`maxSeqNum
      ensures Window(bitmap, maxSeqNum) == Record(old(Window(bitmap, maxSeqNum)), number)
    {
      if number > maxSeqNum {
        var shift := number - maxSeqNum;
        if shift >= WINDOW { bitmap := 0; } else { bitmap := Shl(bitmap, shift, WINDOW); }
        maxSeqNum := number;
      }
      var idx := maxSeqNum - number;
      if idx < WINDOW { bitmap := Or(bitmap, Pow2(idx)); }
    }

    /** dtls_open_record from the parsed header on: the sequence field's first two
        bytes are the epoch; plaintext is what the AEAD opened, if it did. A
        plaintext beyond the limit is an error and is not recorded. */
    method OpenRecord(sequence: seq<byte>, opens: bool, plaintextFits: bool) returns (result: OpenResult)
      requires |sequence| == 8
      modifies this`bitmap, this`maxSeqNum
      ensures var event := Arrives(BigEndian(sequence), opens);
              && (result.Opened? <==> Accepts(old(ReadSide()), event) && plaintextFits)
              && (result.Failed? <==> Accepts(old(ReadSide()), event) && !plaintextFits)
              && ReadSide() == if result.Failed? then old(ReadSide()) else ReadStep(old(ReadSide()), event)
    {
      var number := ToU64Be(sequence);
      EpochField(sequence);
      var epoch := Or(sequence[0] * Pow2(8), sequence[1]);
      OrByte(sequence[0], sequence[1]);
      if epoch != rEpoch { return Discarded; }
      var discard := BitmapShouldDiscard(number);
      if discard || !opens { return Discarded; }
      if !plaintextFits { return Failed; }
      BitmapRecord(number);
      return Opened;
    }

    /** dtls1_set_read_state, once the epoch has no leftover data. */
    method SetReadState(leftover: bool) returns (ok: bool)
      modifies this`rEpoch, this`bitmap, this`maxSeqNum
      ensures ok <==> !leftover
      ensures ReadSide() == if ok then ReadStep(old(ReadSide()), NewReadEpoch) else old(ReadSide())
    {
      if leftover { return false; }
      rEpoch := (rEpoch + 1) % 0x1_0000;
      bitmap, maxSeqNum := 0, 0;
      return true;
    }

    /** dtls1_set_write_state. */
    method SetWriteState()
      modifies this`wEpoch, this`writeSequence, this`lastWriteSequence
      ensures WriteSide() == WriteStep(old(WriteSide()), NewWriteEpoch)
    {
      wEpoch := (wEpoch + 1) % 0x1_0000;
      lastWriteSequence := writeSequence;
      writeSequence := 0;
    }

    /** dtls_seal_record: the nonce it used, and failure when the AEAD fails, the
        counter wraps, or the ciphertext takes 2^16 bytes or more. In the last two
        cases the counter has moved already. */
    method SealRecord(previous: bool, aeadSeals: bool, ciphertextLen: nat) returns (ok: bool, nonce: (int, nat))
      requires Permitted(WriteSide(), Seal(previous, aeadSeals))
      modifies this`writeSequence, this`lastWriteSequence
      ensures var event := Seal(previous, aeadSeals);
              nonce == Nonce(old(WriteSide()), event)
              && WriteSide() == WriteStep(old(WriteSide()), event)
              && (ok <==> aeadSeals && Bumped(nonce.1) != 0 && ciphertextLen < 0x1_0000)
    {
      nonce := (wEpoch, writeSequence);
      if previous { nonce := (wEpoch - 1, lastWriteSequence); }
      if !aeadSeals { return false, nonce; }
      var next := (nonce.1 + 1) % TWO48;
      if previous { lastWriteSequence := next; } else { writeSequence := next; }
      ok := next != 0 && ciphertextLen < 0x1_0000;
    }
  }

  /** The first two of eight bytes are the number divided by 2^48. */
  lemma EpochField(s: seq<byte>)
    requires |s| == 8
    ensures BigEndian(s) / TWO48 == 256 * (s[0] as int) + s[1]
  {
    Pow256Values();
    BigEndianSplit(s, 6);
    BigEndianBound(s[2..]);
    assert s[..2][..1] == s[..1] && s[..1][..0] == [];
    assert BigEndian(s[..1]) == s[0];
    ModUnique(BigEndian(s), TWO48, BigEndian(s[..2]), BigEndian(s[2..]));
  }

  lemma {:induction false} BigEndianSplit(s: seq<byte>, n: nat)
    requires n <= |s|
    ensures BigEndian(s) == Pow256(n) * BigEndian(s[..|s|-n]) + BigEndian(s[|s|-n..])
  {
    if n == 0 {
      assert s[..|s|] == s;
    } else {
      var t, k := s[..|s|-1], |s| - n;
      BigEndianSplit(t, n - 1);
      assert t[..k] == s[..k] && s[k..][..n-1] == t[k..];
      Carry(Pow256(n - 1), BigEndian(s[..k]), BigEndian(t[k..]), s[|s|-1]);
    }
  }

  lemma Carry(p: int, a: int, b: int, c: int)
    ensures 256 * (p * a + b) + c == (256 * p) * a + (256 * b + c)
  {
  }
}
