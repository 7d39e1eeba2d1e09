/**
 Receive deltas of a transport-wide congestion control report: how the responder turns
 arrival times into statuses and delta bytes, and how close a receiver that adds the deltas
 up (section 3.1.5 of draft-holmer-rmcat-transport-wide-cc-extensions-01) comes to them.
 */
module TwccDeltas {
  import opened Words
  import opened TwccChunks

  /** rtpExtInfo: an unwrapped transport sequence number and its arrival in microseconds, 0 for "not received". */
  datatype Arrival = Arrival(extTSN: u32, timestamp: int)

  const TICK := 250
  const REFERENCE_UNIT := 64000

  /** Go's conversion of an int64 to int16. */
  function ToInt16(x: int): int {
    if Low16(x) < 0x8000 then Low16(x) else Low16(x) - 0x1_0000
  }

  /** The int16 that the responder writes for a large delta. */
  function Saturate(delta: int): int {
    var r := ToInt16(delta);
    if r == delta then r else if r > 0 then 0x7FFF else -0x8000
  }

  predicate FitsInt16(delta: int) {
    -0x8000 <= delta <= 0x7FFF
  }

  /**
   A delta is written unchanged exactly when it fits 16 bits. Otherwise the sign of the truncated
   value picks the limit: it is the right one exactly when that sign is the delta's own.
   */
  lemma SaturateExact(delta: int)
    ensures Saturate(delta) == delta <==> FitsInt16(delta)
    ensures delta > 0x7FFF ==>
            (Saturate(delta) == 0x7FFF <==> ToInt16(delta) > 0) && (Saturate(delta) == -0x8000 <==> ToInt16(delta) <= 0)
    ensures delta < -0x8000 ==>
            (Saturate(delta) == -0x8000 <==> ToInt16(delta) <= 0) && (Saturate(delta) == 0x7FFF <==> ToInt16(delta) > 0)
  {
    ToInt16Range(delta);
  }

  lemma ToInt16Range(x: int)
    ensures FitsInt16(ToInt16(x)) && (FitsInt16(x) ==> ToInt16(x) == x)
  {
    if -0x8000 <= x < 0 {
      Low16Sum(0, -x);
    }
  }

  /**
   The truncated value of a delta too large comes round every 2^16 ticks: for half of them the wrong
   limit is written.
   */
  lemma WrongLimitEveryCycle(delta: int, cycles: nat)
    requires 0x8000 <= delta < 0x1_8000
    ensures Saturate(delta + cycles * 0x1_0000) == if delta <= 0x1_0000 then -0x8000 else 0x7FFF
  {
    Low16Cycles(delta, cycles);
    Low16Sum(0x8000, delta - 0x8000);
  }

  /** And below the range. */
  lemma WrongLimitBelow(delta: int, cycles: nat)
    requires -0x1_8000 < delta < -0x8000
    ensures Saturate(delta - cycles * 0x1_0000) == if delta <= -0x1_0000 then -0x8000 else 0x7FFF
  {
    Low16Cycles(delta - cycles * 0x1_0000, cycles);
    Low16Sum(-0x8001, -0x8001 - delta);
    Low16Sum(0, 0x8001);
  }

  function DeltaStatus(delta: int): Symbol {
    if delta < 0 || delta > 255 then LARGE_DELTA else SMALL_DELTA
  }

  function DeltaBytes(delta: int): seq<byte> {
    if delta < 0 || delta > 255 then Be16(Low16(Saturate(delta))) else [delta]
  }

  /** Loop state of the status pass: firstRecv, refTime, timestamp, the statuses and the delta area. */
  datatype Pass = Pass(firstRecv: bool, refTime: int, timestamp: int, sts: seq<Symbol>, deltas: seq<byte>)

  const NO_PACKETS := Pass(false, 0, 0, [], [])

  /** The time that the delta of a packet counts from, and the reference time of the report once it is known. */
  function Anchor(p: Pass, ts: int): Pass {
    if p.firstRecv then p
    else p.(firstRecv := true, refTime := GoDiv(ts, REFERENCE_UNIT),
            timestamp := GoDiv(ts, REFERENCE_UNIT) * REFERENCE_UNIT)
  }

  function DeltaFrom(p: Pass, ts: int): int {
    GoDiv(ts - Anchor(p, ts).timestamp, TICK)
  }

  function StepPass(p: Pass, a: Arrival): Pass {
    if a.timestamp == 0 then p.(sts := p.sts + [NOT_RECEIVED])
    else
      var delta := DeltaFrom(p, a.timestamp);
      Pass(true, Anchor(p, a.timestamp).refTime, a.timestamp, p.sts + [DeltaStatus(delta)],
           p.deltas + DeltaBytes(delta))
  }

  function RunPass(pkts: seq<Arrival>): Pass {
    if pkts == [] then NO_PACKETS else StepPass(RunPass(pkts[..|pkts| - 1]), pkts[|pkts| - 1])
  }

  function Received(pkts: seq<Arrival>): nat {
    if pkts == [] then 0
    else Received(pkts[..|pkts| - 1]) + if pkts[|pkts| - 1].timestamp == 0 then 0 else 1
  }

  // ---------------------------------------------------------------- the receiver

  function Width(s: Symbol): nat {
    if s == SMALL_DELTA then 1 else if s == LARGE_DELTA then 2 else 0
  }

  /** The size of the delta area that goes with some statuses. */
  function DeltaSize(sts: seq<Symbol>): nat {
    if sts == [] then 0 else DeltaSize(sts[..|sts| - 1]) + Width(sts[|sts| - 1])
  }

  /** One delta as the receiver reads it, in ticks of 250us: one unsigned byte or two signed ones. */
  function ReadDelta(s: Symbol, area: seq<byte>, at: nat): int
    requires at + Width(s) <= |area|
  {
    if s == SMALL_DELTA then area[at]
    else if s == LARGE_DELTA then ToInt16(FromBe16(area[at], area[at + 1]))
    else 0
  }

  /**
   The receiver's clock after the last of some statuses, in microseconds, having added up all deltas
   before it: a delta counts 250us, and a unit of the reference time 64ms (section 3.1 of the draft).
   */
  function TimeAfter(sts: seq<Symbol>, area: seq<byte>, reference: int): int
    requires DeltaSize(sts) <= |area|
  {
    if sts == [] then reference
    else
      var init, s := sts[..|sts| - 1], sts[|sts| - 1];
      TimeAfter(init, area, reference) + ReadDelta(s, area, DeltaSize(init)) * 250
  }

  /** The receiver's clock does not depend on what follows in the delta area. */
  lemma {:induction false} TimeOfPrefix(sts: seq<Symbol>, area: seq<byte>, more: seq<byte>, reference: int)
    requires DeltaSize(sts) <= |area|
    ensures TimeAfter(sts, area + more, reference) == TimeAfter(sts, area, reference)
  {
    if sts != [] {
      TimeOfPrefix(sts[..|sts| - 1], area, more, reference);
    }
  }

  // ---------------------------------------------------------------- what the pass computes

  /** Statuses say who was received. */
  lemma {:induction false} PassStatuses(pkts: seq<Arrival>)
    ensures var sts := RunPass(pkts).sts;
            && |sts| == |pkts|
            && forall i :: 0 <= i < |pkts| ==>
                 sts[i] != WITHOUT_DELTA && (sts[i] != NOT_RECEIVED <==> pkts[i].timestamp != 0)
  {
    if pkts != [] {
      PassStatuses(pkts[..|pkts| - 1]);
    }
  }

  lemma DeltaWidth(delta: int)
    ensures |DeltaBytes(delta)| == Width(DeltaStatus(delta))
  {}

  lemma SizeAppend(sts: seq<Symbol>, s: Symbol)
    ensures DeltaSize(sts + [s]) == DeltaSize(sts) + Width(s)
  {
    assert (sts + [s])[..|sts|] == sts;
  }

  /** The delta area has exactly the bytes that the statuses call for. */
  lemma {:induction false} PassLayout(pkts: seq<Arrival>)
    ensures |RunPass(pkts).deltas| == DeltaSize(RunPass(pkts).sts)
    ensures RunPass(pkts).firstRecv <==> Received(pkts) > 0
  {
    if pkts != [] {
      var p, a := RunPass(pkts[..|pkts| - 1]), pkts[|pkts| - 1];
      PassLayout(pkts[..|pkts| - 1]);
      if a.timestamp == 0 {
        SizeAppend(p.sts, NOT_RECEIVED);
      } else {
        var delta := DeltaFrom(p, a.timestamp);
        DeltaWidth(delta);
        SizeAppend(p.sts, DeltaStatus(delta));
      }
    }
  }

  /** No delta of the report overflows the int16 it is written in. */
  predicate Unsaturated(pkts: seq<Arrival>) {
    pkts == [] ||
    var p, a := RunPass(pkts[..|pkts| - 1]), pkts[|pkts| - 1];
    Unsaturated(pkts[..|pkts| - 1]) && (a.timestamp != 0 ==> FitsInt16(DeltaFrom(p, a.timestamp)))
  }

  lemma ToInt16OfWrapped(x: int)
    requires FitsInt16(x)
    ensures ToInt16(Low16(x)) == x
  {}

  lemma ReadBack(delta: int, area: seq<byte>)
    ensures |DeltaBytes(delta)| == Width(DeltaStatus(delta))
    ensures ReadDelta(DeltaStatus(delta), area + DeltaBytes(delta), |area|) == Saturate(delta)
  {
    SaturateExact(delta);
    var v := Low16(Saturate(delta));
    Be16RoundTrip(v);
    ToInt16Range(delta);
    ToInt16OfWrapped(Saturate(delta));
    var b := DeltaBytes(delta);
    assert b == if DeltaStatus(delta) == LARGE_DELTA then Be16(v) else [delta];
    assert (area + b)[|area|] == b[0] && (|b| == 2 ==> (area + b)[|area| + 1] == b[1]);
  }

  function Abs(x: int): nat {
    if x < 0 then -x else x
  }

  /** The receiver's clock after some statuses is less than n ticks away from a time. */
  ghost predicate Within(sts: seq<Symbol>, area: seq<byte>, reference: int, time: int, n: nat) {
    DeltaSize(sts) <= |area| && Abs(TimeAfter(sts, area, reference) - time) < 250 * n
  }

  /** How far the receiver's clock is from the responder's after a pass over n received packets. */
  ghost predicate InStep(p: Pass, n: nat) {
    && DeltaSize(p.sts) == |p.deltas|
    && (p.firstRecv ==> Within(p.sts, p.deltas, p.refTime * 64000, p.timestamp, n))
    && (!p.firstRecv ==> n == 0 && p.deltas == [] && forall r: int :: TimeAfter(p.sts, [], r) == r)
  }

  /**
   Truncation loses less than a tick per packet, and the next delta starts from the true time, so the
   loss adds up.
   */
  lemma {:induction false} ClockError(pkts: seq<Arrival>)
    requires Unsaturated(pkts)
    ensures InStep(RunPass(pkts), Received(pkts))
  {
    if pkts != [] {
      var init, a := pkts[..|pkts| - 1], pkts[|pkts| - 1];
      ClockError(init);
      ClockStep(RunPass(init), a, Received(init));
    }
  }

  lemma TickError(x: int)
    ensures Abs(x - GoDiv(x, TICK) * TICK) < TICK
  {
    GoDivTruncates(x, TICK);
  }

  lemma NearBy(drift: int, rest: int, n: nat)
    requires (drift == 0 || Abs(drift) < 250 * n) && Abs(rest) < 250
    ensures Abs(drift - rest) < 250 * (n + 1)
  {}

  lemma ReceivedStep(p: Pass, a: Arrival, n: nat)
    requires InStep(p, n) && a.timestamp != 0 && FitsInt16(DeltaFrom(p, a.timestamp))
    ensures var q := StepPass(p, a);
            DeltaSize(q.sts) == |q.deltas| && Within(q.sts, q.deltas, q.refTime * 64000, a.timestamp, n + 1)
  {
    var q := StepPass(p, a);
    assert q.sts[..|p.sts|] == p.sts;
    var delta, anchor, reference := DeltaFrom(p, a.timestamp), Anchor(p, a.timestamp).timestamp, q.refTime * 64000;
    TickError(a.timestamp - anchor);
    ReadBack(delta, p.deltas);
    SaturateExact(delta);
    TimeOfPrefix(p.sts, p.deltas, DeltaBytes(delta), reference);
    var before := TimeAfter(p.sts, p.deltas, reference);
    assert before - anchor == 0 || Abs(before - anchor) < 250 * n;
    assert TimeAfter(q.sts, q.deltas, reference) == before + delta * 250;
    NearBy(before - anchor, a.timestamp - anchor - delta * 250, n);
  }

  lemma ClockStep(p: Pass, a: Arrival, n: nat)
    requires InStep(p, n)
    requires a.timestamp != 0 ==> FitsInt16(DeltaFrom(p, a.timestamp))
    ensures InStep(StepPass(p, a), if a.timestamp == 0 then n else n + 1)
  {
    if a.timestamp != 0 {
      ReceivedStep(p, a, n);
    } else {
      LostStep(p, a, n);
    }
  }

  lemma LostStep(p: Pass, a: Arrival, n: nat)
    requires InStep(p, n) && a.timestamp == 0
    ensures InStep(StepPass(p, a), n)
  {
    var q := StepPass(p, a);
    assert q.sts[..|p.sts|] == p.sts && q.deltas == p.deltas;
  }

  /** A limit that is written instead of a delta is at least half a cycle of ticks away from it. */
  lemma SaturatedIsFar(delta: int)
    requires !FitsInt16(delta)
    ensures Abs(Saturate(delta) - delta) >= 0x8000
  {
    ToInt16Range(delta);
    SaturatedLimit(delta);
  }

  /** Just above the range it is the lower limit, and just below it the upper one. */
  lemma SaturatedLimit(delta: int)
    ensures 0x8000 <= delta < 0x1_0000 ==> Saturate(delta) == -0x8000
    ensures -0x1_0000 < delta < -0x8000 ==> Saturate(delta) == 0x7FFF
  {
    if 0x8000 <= delta < 0x1_0000 {
      WrongLimitEveryCycle(delta, 0);
    }
    if -0x1_0000 < delta < -0x8000 {
      WrongLimitBelow(delta, 0);
    }
  }

  /** One saturated delta, and the clock is further off than up to 2^14 truncations could bring it. */
  lemma SaturatedStep(p: Pass, a: Arrival, n: nat)
    requires InStep(p, n) && n < 0x4000 && a.timestamp != 0 && !FitsInt16(DeltaFrom(p, a.timestamp))
    ensures var q := StepPass(p, a); !Within(q.sts, q.deltas, q.refTime * 64000, a.timestamp, n + 1)
  {
    var q := StepPass(p, a);
    assert q.sts[..|p.sts|] == p.sts;
    var delta, anchor := DeltaFrom(p, a.timestamp), Anchor(p, a.timestamp).timestamp;
    TickError(a.timestamp - anchor);
    ReadBack(delta, p.deltas);
    SaturatedIsFar(delta);
    TimeOfPrefix(p.sts, p.deltas, DeltaBytes(delta), q.refTime * 64000);
    var before := TimeAfter(p.sts, p.deltas, q.refTime * 64000);
    assert Abs(before - anchor) <= TICK * n;
    assert TimeAfter(q.sts, q.deltas, q.refTime * 64000) == before + Saturate(delta) * TICK;
    FarOff(before - anchor, Saturate(delta) - delta, a.timestamp - anchor - delta * TICK, n);
  }

  lemma FarOff(drift: int, jump: int, rest: int, n: nat)
    requires Abs(drift) <= TICK * n && Abs(rest) < TICK && Abs(jump) >= 0x8000 && n < 0x4000
    ensures Abs(drift + jump * TICK - rest) >= TICK * (n + 1)
  {}

  lemma {:induction false} PassPrefix(pkts: seq<Arrival>, k: nat)
    requires k <= |pkts|
    ensures RunPass(pkts[..k]).sts <= RunPass(pkts).sts
    ensures RunPass(pkts[..k]).deltas <= RunPass(pkts).deltas
    ensures RunPass(pkts[..k]).firstRecv ==>
            RunPass(pkts).firstRecv && RunPass(pkts).refTime == RunPass(pkts[..k]).refTime
    ensures Unsaturated(pkts) ==> Unsaturated(pkts[..k])
  {
    if k < |pkts| {
      PassPrefix(pkts[..|pkts| - 1], k);
      assert pkts[..|pkts| - 1][..k] == pkts[..k];
    } else {
      assert pkts[..k] == pkts;
    }
  }

  /** The clock that a receiver has at packet i is less than 250us per received packet away from its arrival time. */
  ghost predicate Accurate(pkts: seq<Arrival>, i: nat)
    requires i < |pkts|
  {
    var p := RunPass(pkts);
    && i < |p.sts|
    && Within(p.sts[..i + 1], p.deltas, p.refTime * 64000, pkts[i].timestamp, Received(pkts[..i + 1]))
  }

  /**
   A receiver that adds the deltas up, from the reference time of the report, is less than
   250us per received packet away from each packet's arrival time.
   */
  lemma DeltaAccuracy(pkts: seq<Arrival>, i: nat)
    requires Unsaturated(pkts) && i < |pkts| && pkts[i].timestamp != 0
    ensures Accurate(pkts, i)
  {
    var head := pkts[..i + 1];
    PassPrefix(pkts, i + 1);
    PassStatuses(pkts);
    PassStatuses(head);
    ClockError(head);
    LastReceived(head);
    SameClock(RunPass(head), RunPass(pkts), i + 1);
  }

  lemma LastReceived(pkts: seq<Arrival>)
    requires pkts != [] && pkts[|pkts| - 1].timestamp != 0
    ensures RunPass(pkts).firstRecv && RunPass(pkts).timestamp == pkts[|pkts| - 1].timestamp
  {}

  lemma SameClock(q: Pass, p: Pass, k: nat)
    requires |q.sts| == k && q.sts <= p.sts && q.deltas <= p.deltas
    requires DeltaSize(q.sts) == |q.deltas|
    ensures forall reference: int, time: int, n: nat ::
              Within(q.sts, q.deltas, reference, time, n) <==> Within(p.sts[..k], p.deltas, reference, time, n)
  {
    var more := p.deltas[|q.deltas|..];
    assert p.deltas == q.deltas + more && p.sts[..k] == q.sts;
    forall reference: int, time: int, n: nat
      ensures Within(q.sts, q.deltas, reference, time, n) <==> Within(p.sts[..k], p.deltas, reference, time, n)
    {
      TimeOfPrefix(q.sts, q.deltas, more, reference);
    }
  }

  /** A report of one arrival: the reference time counts whole 64 ms, and the delta the 250us beyond them. */
  lemma OneArrival(a: Arrival)
    requires a.timestamp > 0
    ensures RunPass([a]) == Pass(true, a.timestamp / 64000, a.timestamp, [SMALL_DELTA], [a.timestamp % 64000 / 250])
  {
    assert [a][..0] == [];
    GoDivTruncates(a.timestamp, 64000);
    GoDivTruncates(a.timestamp % 64000, 250);
    assert a.timestamp - a.timestamp / 64000 * 64000 == a.timestamp % 64000;
  }

  lemma {:induction false} FirstSaturated(pkts: seq<Arrival>) returns (i: nat)
    requires !Unsaturated(pkts)
    ensures i < |pkts| && Unsaturated(pkts[..i]) && pkts[i].timestamp != 0
    ensures !FitsInt16(DeltaFrom(RunPass(pkts[..i]), pkts[i].timestamp))
  {
    var n := |pkts| - 1;
    if Unsaturated(pkts[..n]) {
      i := n;
    } else {
      i := FirstSaturated(pkts[..n]);
      assert pkts[..n][..i] == pkts[..i];
    }
  }

  lemma {:induction false} ReceivedBefore(pkts: seq<Arrival>, i: nat)
    requires i <= |pkts|
    ensures Received(pkts[..i]) <= Received(pkts)
  {
    if i < |pkts| {
      ReceivedBefore(pkts[..|pkts| - 1], i);
      assert pkts[..|pkts| - 1][..i] == pkts[..i];
    } else {
      assert pkts[..i] == pkts;
    }
  }

  /**
   With up to 2^14 received packets, a receiver is as close to every arrival time exactly if no delta
   was saturated.
   */
  lemma AccuracyIff(pkts: seq<Arrival>)
    requires Received(pkts) <= 0x4000
    ensures Unsaturated(pkts) <==> forall i :: 0 <= i < |pkts| && pkts[i].timestamp != 0 ==> Accurate(pkts, i)
  {
    if Unsaturated(pkts) {
      forall i | 0 <= i < |pkts| && pkts[i].timestamp != 0 ensures Accurate(pkts, i) {
        DeltaAccuracy(pkts, i);
      }
    } else {
      var i := FirstSaturated(pkts);
      SaturatedIsInaccurate(pkts, i);
    }
  }

  lemma SaturatedIsInaccurate(pkts: seq<Arrival>, i: nat)
    requires i < |pkts| && Unsaturated(pkts[..i]) && pkts[i].timestamp != 0 && Received(pkts) <= 0x4000
    requires !FitsInt16(DeltaFrom(RunPass(pkts[..i]), pkts[i].timestamp))
    ensures !Accurate(pkts, i)
  {
    var head := pkts[..i + 1];
    assert head[..i] == pkts[..i];
    ReceivedBefore(pkts, i + 1);
    ClockError(pkts[..i]);
    var before, n := RunPass(pkts[..i]), Received(pkts[..i]);
    assert RunPass(head) == StepPass(before, pkts[i]) && Received(head) == n + 1;
    SaturatedStep(before, pkts[i], n);
    PassPrefix(pkts, i + 1);
    PassStatuses(pkts);
    PassStatuses(head);
    PassLayout(head);
    SameClock(RunPass(head), RunPass(pkts), i + 1);
  }
}
