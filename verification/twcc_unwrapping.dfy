/**
 How the transport-wide congestion control responder unwraps 16-bit sequence numbers: by their
 order of arrival, with a cycle counted when a low number follows a high one.
 */
module TwccUnwrapping {
  import opened Words

  /** The number of cycles counted, and the number that arrived last. */
  datatype Unwrapper = Unwrapper(cycles: u16, lastSn: u16)

  const START := Unwrapper(0, 0)

  /** cycles | sn, where the low 16 bits of the cycles word are clear. */
  function Number(u: Unwrapper): u32 {
    u.cycles * 0x1_0000 + u.lastSn
  }

  predicate Crosses(last: u16, sn: u16) {
    sn < 0x0FFF && last > 0xF000
  }

  function Next(u: Unwrapper, sn: u16): Unwrapper {
    Unwrapper(if Crosses(u.lastSn, sn) then Add16(u.cycles, 1) else u.cycles, sn)
  }

  // ---------------------------------------------------------------- against the true numbers

  /** Successive arrivals are less than half a cycle apart. */
  predicate Near(before: int, t: int) {
    -0x8000 < t - before < 0x8000
  }

  /**
   Both are in one cycle of 2^16, or the later number is near the start of the next one and the
   earlier near the end.
   */
  predicate Follows(before: int, t: int) {
    t - Low16(t) == before - Low16(before) || (t > before && Low16(before) > 0xF000 && Low16(t) < 0x0FFF)
  }

  lemma LastBits(u: Unwrapper, before: int)
    requires Number(u) == Low32(before)
    ensures Low16(before) == u.lastSn
  {
    Low16OfLow32(before);
    Low16Cycles(u.lastSn, u.cycles);
  }

  /** On bounded numbers: forward by less than half a cycle. */
  lemma ForwardIff(u: Unwrapper, d: u16)
    requires d < 0x8000
    ensures var sn := Add16(u.lastSn, d);
            Number(Next(u, sn)) == Add32(Number(u), d) <==> sn == u.lastSn + d || Crosses(u.lastSn, sn)
  {}

  lemma BackwardIff(u: Unwrapper, d: u16)
    requires 0 < d < 0x8000
    ensures var sn := Sub16(u.lastSn, d);
            Number(Next(u, sn)) == Sub32(Number(u), d) <==> sn == u.lastSn - d
  {}

  /**
   An arrival gets its true number, modulo 2^32, exactly when it is in the cycle of the arrival
   before it, or crosses into the next one within the limits that the code tests.
   */
  lemma NextIsRightIff(u: Unwrapper, before: int, t: int)
    requires Number(u) == Low32(before) && Near(before, t)
    ensures Number(Next(u, Low16(t))) == Low32(t) <==> Follows(before, t)
  {
    LastBits(u, before);
    if t >= before {
      Low16Sum(before, t - before);
      Low32Sum(before, t - before);
      ForwardIff(u, t - before);
    } else {
      Low16Sum(before, before - t);
      Low32Sum(before, before - t);
      BackwardIff(u, before - t);
    }
  }

  /** The unwrapper after some arrivals. */
  function After(ts: seq<int>): Unwrapper {
    if ts == [] then START else Next(After(ts[..|ts| - 1]), Low16(ts[|ts| - 1]))
  }

  ghost predicate AllNear(ts: seq<int>) {
    (ts != [] ==> 0 <= ts[0] < 0x1_0000) && forall n :: 0 < n < |ts| ==> Near(ts[n - 1], ts[n])
  }

  ghost predicate RightUpTo(ts: seq<int>, k: nat) {
    forall n: nat :: n < k && n < |ts| ==> Number(After(ts[..n + 1])) == Low32(ts[n])
  }

  ghost predicate FollowUpTo(ts: seq<int>, k: nat) {
    forall n: nat :: 0 < n < k && n < |ts| ==> Follows(ts[n - 1], ts[n])
  }

  lemma AfterNext(ts: seq<int>, n: nat)
    requires n < |ts|
    ensures After(ts[..n + 1]) == Next(After(ts[..n]), Low16(ts[n]))
  {
    assert ts[..n + 1][..n] == ts[..n];
  }

  /** In a run, all arrivals up to some point get their true numbers exactly when each follows the one before it. */
  lemma {:induction false} RunIsRightIff(ts: seq<int>, k: nat)
    requires AllNear(ts) && k <= |ts|
    ensures RightUpTo(ts, k) <==> FollowUpTo(ts, k)
  {
    if k > 0 {
      RunIsRightIff(ts, k - 1);
      AfterNext(ts, k - 1);
      if k == 1 {
        assert ts[..0] == [];
      } else if RightUpTo(ts, k - 1) {
        assert Number(After(ts[..k - 2 + 1])) == Low32(ts[k - 2]);
        NextIsRightIff(After(ts[..k - 1]), ts[k - 2], ts[k - 1]);
      }
      LastOfRight(ts, k);
    }
  }

  lemma LastOfRight(ts: seq<int>, k: nat)
    requires 0 < k <= |ts|
    ensures RightUpTo(ts, k) <==> RightUpTo(ts, k - 1) && Number(After(ts[..k - 1 + 1])) == Low32(ts[k - 1])
    ensures FollowUpTo(ts, k) <==> FollowUpTo(ts, k - 1) && (k > 1 ==> Follows(ts[k - 2], ts[k - 1]))
  {
    assert k - 1 < |ts|;
  }

  /** A late arrival from before the boundary is put a cycle ahead, and so is everything from then on. */
  lemma LateOverTheBoundary()
    ensures var u := Next(Next(START, 0xFFFE), 0);
            && Number(Next(START, 0xFFFE)) == 65534 && Number(u) == 65536
            && Number(Next(u, 0xFFFF)) == 131071 && Number(Next(Next(u, 0xFFFF), 1)) == 131073
  {}
}
