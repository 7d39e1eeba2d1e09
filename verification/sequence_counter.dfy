/**
 How the buffer unwraps 16-bit sequence numbers with a cycle count, when this agrees with the
 true numbers (Appendix A.1 of RFC 3550), and which 32-bit numbers it gives to lost packets.
 */
module SequenceCounter {
  import opened Words

  /** b.maxSeqNo, and b.cycles as the number of cycles of 2^16. */
  datatype Counter = Counter(cycles: u16, maxSeqNo: u16)

  const CYCLE := 0x1_0000
  const HALF := 0x8000

  /** cycles | maxSeqNo, whose bits do not meet. */
  function Ext(c: Counter): u32 {
    c.cycles * CYCLE + c.maxSeqNo
  }

  /** (sn - maxSeqNo) & 0x8000 == 0. */
  predicate Ahead(c: Counter, sn: u16) {
    Sub16(sn, c.maxSeqNo) < HALF
  }

  /** The counter after a packet that is not the first. */
  function Step(c: Counter, sn: u16): Counter {
    if Ahead(c, sn) then Counter(if sn < c.maxSeqNo then Add16(c.cycles, 1) else c.cycles, sn) else c
  }

  /** A true number is within half a cycle of the highest one so far. */
  predicate InReach(highest: int, t: int) {
    highest - 0x8000 <= t < highest + 0x8000
  }

  function Max(a: int, b: int): int {
    if a > b then a else b
  }

  lemma ExtLow(c: Counter)
    ensures Low16(Ext(c)) == c.maxSeqNo
  {
    Low16Cycles(c.maxSeqNo, c.cycles);
  }

  lemma StepForward(c: Counter, d: u16)
    requires d < HALF
    ensures Ahead(c, Add16(c.maxSeqNo, d)) && Ext(Step(c, Add16(c.maxSeqNo, d))) == Add32(Ext(c), d)
  {}

  lemma StepBack(c: Counter, d: u16)
    requires 0 < d <= HALF
    ensures !Ahead(c, Sub16(c.maxSeqNo, d)) && Step(c, Sub16(c.maxSeqNo, d)) == c
  {}

  /** One packet in reach: the counter goes on to the higher of the two true numbers, modulo 2^32. */
  lemma StepIsCorrect(c: Counter, highest: int, t: int)
    requires Ext(c) == Low32(highest) && InReach(highest, t)
    ensures Ext(Step(c, Low16(t))) == Low32(Max(highest, t))
    ensures Ahead(c, Low16(t)) <==> t >= highest
  {
    Low16OfLow32(highest);
    ExtLow(c);
    if t >= highest {
      Low16Sum(highest, t - highest);
      Low32Sum(highest, t - highest);
      StepForward(c, t - highest);
    } else {
      Low16Sum(highest, highest - t);
      StepBack(c, highest - t);
    }
  }

  /** The counter after a run of packets, of which only the low 16 bits are seen. */
  function CounterAfter(ts: seq<int>): Counter
    requires ts != []
  {
    if |ts| == 1 then Counter(0, Low16(ts[0]))
    else Step(CounterAfter(ts[..|ts| - 1]), Low16(ts[|ts| - 1]))
  }

  function Highest(ts: seq<int>): int
    requires ts != []
  {
    if |ts| == 1 then ts[0] else Max(Highest(ts[..|ts| - 1]), ts[|ts| - 1])
  }

  /** Every packet arrives within half a cycle of the highest number before it. */
  predicate AllInReach(ts: seq<int>)
    requires ts != []
  {
    |ts| == 1 || (AllInReach(ts[..|ts| - 1]) && InReach(Highest(ts[..|ts| - 1]), ts[|ts| - 1]))
  }

  /** For every such run, cycles | maxSeqNo is the highest true number modulo 2^32. */
  lemma {:induction false} UnwrappingIsCorrect(ts: seq<int>)
    requires ts != [] && 0 <= ts[0] < CYCLE && AllInReach(ts)
    ensures Ext(CounterAfter(ts)) == Low32(Highest(ts))
  {
    if |ts| > 1 {
      UnwrappingIsCorrect(ts[..|ts| - 1]);
      StepIsCorrect(CounterAfter(ts[..|ts| - 1]), Highest(ts[..|ts| - 1]), ts[|ts| - 1]);
    }
  }

  // ---------------------------------------------------------------- numbers of lost packets

  /** The cycle the code picks for a number next to the head, given the cycles after and the head before the packet. */
  function ExtFor(cycles: u16, maxSeqNo: u16, sn: u16): u32 {
    (if sn > maxSeqNo && sn >= HALF && maxSeqNo < HALF then Sub16(cycles, 1) else cycles) * CYCLE + sn
  }

  /** A late packet gets its own number: as far behind the head as it is on 16 bits. */
  lemma LateNumberIsCorrect(c: Counter, sn: u16)
    requires !Ahead(c, sn)
    ensures ExtFor(c.cycles, c.maxSeqNo, sn) == Sub32(Ext(c), Sub16(c.maxSeqNo, sn))
  {}

  /**
   The skipped number is in the lower half of the number space, or the old head is in the upper half
   and nothing wrapped.
   */
  predicate CyclePicked(c: Counter, sn: u16, skipped: u16) {
    skipped < HALF || (c.maxSeqNo >= HALF && sn > c.maxSeqNo)
  }

  /**
   The i-th number below a packet that jumped ahead gets its own number exactly when it is in the
   lower half, or the old head is in the upper half and the number space did not wrap in between.
   */
  lemma SkippedNumberIsCorrectIff(c: Counter, sn: u16, i: u16)
    requires Ahead(c, sn) && 1 <= i < Sub16(sn, c.maxSeqNo)
    ensures ExtFor(Step(c, sn).cycles, c.maxSeqNo, Sub16(sn, i)) == Sub32(Ext(Step(c, sn)), i)
            <==> CyclePicked(c, sn, Sub16(sn, i))
  {}

  /**
   Between 0x7FFE and 0x8002 in the first cycle, the lost 0x8000 and 0x8001 get numbers of a cycle
   before the first.
   */
  lemma GapAcrossTheMiddle()
    ensures var c := Counter(0, 0x7FFE);
            && Ext(Step(c, 0x8002)) == 0x8002
            && ExtFor(Step(c, 0x8002).cycles, c.maxSeqNo, 0x8001) == 0xFFFF_8001
            && ExtFor(Step(c, 0x8002).cycles, c.maxSeqNo, 0x7FFF) == 0x7FFF
  {}
}
