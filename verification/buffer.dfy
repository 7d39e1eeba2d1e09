/**
 The sequence number, NACK and bucket part of the packet buffer.
 */
module MediaBuffer {
  import opened Words
  import opened SequenceCounter
  import BucketRing
  import opened PacketBucket
  import NackPairs
  import opened NackQueue
  import opened LossLedger
  import LossRequests

  class Buffer {
    const bucket: Bucket
    const nacker: Queue
    const nack: bool

    var packetCount: nat
    var baseSN: u16
    /** The cycles word counts up by 2^16; this is the number of cycles. */
    var cycles: u16
    var maxSeqNo: u16

    /** The true number of the first packet, the numbers that arrived and the ones given up. */
    ghost var first: int
    ghost var arrived: set<int>
    ghost var dropped: set<int>

    ghost predicate Valid()
      reads this, bucket, bucket.buf, nacker
    {
      bucket.Valid() && nacker.Valid()
    }

    function Count(): Counter
      reads this
    {
      Counter(cycles, maxSeqNo)
    }

    /** The counter and the bucket have seen the same packets. */
    ghost predicate Synced()
      reads this, bucket
    {
      && packetCount > 0
      && bucket.init && !bucket.resyncOnNextPacket
      && bucket.headSN == maxSeqNo == Low16(bucket.ring.head)
      && Ext(Count()) == Low32(bucket.ring.head)
    }

    /** The queue holds exactly the lost packets. */
    ghost predicate Exact()
      reads this, bucket, nacker
    {
      && Ledger(nacker.nacks, first, bucket.ring.head, arrived, dropped)
      && bucket.ring.head in arrived && UpTo(arrived, dropped, bucket.ring.head)
    }

    constructor (store: Bucket, queue: Queue, nacks: bool)
      requires store.Valid() && !store.init && !store.resyncOnNextPacket && queue.Valid() && queue.nacks == []
      ensures Valid() && bucket == store && nacker == queue && nack == nacks
      ensures packetCount == 0 && cycles == 0
    {
      bucket, nacker, nack := store, queue, nacks;
      packetCount, baseSN, cycles, maxSeqNo := 0, 0, 0, 0;
      first, arrived, dropped := 0, {}, {};
    }

    /** The cycle picked for a number next to the head. */
    method ExtendedSN(sn: u16) returns (extSN: u32)
      ensures extSN == ExtFor(cycles, maxSeqNo, sn)
    {
      if sn > maxSeqNo && sn >= HALF && maxSeqNo < HALF {
        extSN := Sub16(cycles, 1) * CYCLE + sn;
      } else {
        extSN := cycles * CYCLE + sn;
      }
    }

    /** Pushes the numbers between the head and a packet that jumped ahead, from the top down. */
    method NoteGap(sn: u16)
      requires nacker.Valid()
      modifies nacker`nacks
      ensures nacker.Valid()
      ensures nacker.nacks == PushGap(old(nacker.nacks), cycles, maxSeqNo, sn,
                                      if sn == maxSeqNo then 0 else Sub16(sn, maxSeqNo) - 1)
    {
      var diff := Sub16(sn, maxSeqNo);
      var i := 1;
      ghost var q, c, m := nacker.nacks, cycles, maxSeqNo;
      while i < diff
        invariant nacker.Valid() && 1 <= i && (i <= diff || i == 1)
        invariant nacker.nacks == PushGap(q, c, m, sn, i - 1)
      {
        PushGapNext(q, c, m, sn, i);
        var extSN := ExtendedSN(Sub16(sn, i));
        nacker.Push(extSN);
        i := i + 1;
      }
      assert i - 1 == if sn == maxSeqNo then 0 else diff - 1;
    }

    /** The counter, and with it the queue, after a packet's sequence number. */
    method CountPacket(sn: u16)
      requires nacker.Valid()
      modifies this`baseSN, this`cycles, this`maxSeqNo, nacker`nacks
      ensures nacker.Valid()
      ensures packetCount == 0 ==> Count() == Counter(old(cycles), sn) && nacker.nacks == old(nacker.nacks)
      ensures packetCount != 0 ==> Count() == Step(old(Count()), sn)
      ensures packetCount != 0 ==>
                nacker.nacks == if nack then AfterPacket(old(nacker.nacks), old(Count()), sn) else old(nacker.nacks)
    {
      ghost var c, q := Count(), nacker.nacks;
      if packetCount == 0 {
        baseSN, maxSeqNo := sn, sn;
      } else if Sub16(sn, maxSeqNo) < HALF {
        if sn < maxSeqNo {
          cycles := Add16(cycles, 1);
        }
        if nack {
          assert Ahead(c, sn) && Step(c, sn).cycles == cycles;
          NoteGap(sn);
          assert nacker.nacks == AfterPacket(q, c, sn);
        }
        maxSeqNo := sn;
      } else if nack && Sub16(sn, maxSeqNo) >= HALF {
        var extSN := ExtendedSN(sn);
        nacker.Remove(extSN);
      }
    }

    /** The true number of a packet, as far as its 16 bits and the bucket's head tell. */
    ghost function TrueNumber(sn: u16): int
      reads this, bucket
    {
      if !bucket.init then sn else BucketRing.Unwrap(bucket.ring.head, sn)
    }

    /** Hands the packet to the bucket. */
    method StorePacket(pkt: seq<byte>) returns (ok: bool)
      requires bucket.Valid() && 4 <= |pkt| <= 1498
      modifies bucket, bucket.buf
      ensures bucket.Valid() && bucket.init && !bucket.resyncOnNextPacket
      ensures !old(bucket.init) ==>
                var sn := BucketRing.SeqNum(pkt); ok && bucket.ring == BucketRing.Ring(sn, map[sn as int := pkt])
      ensures old(bucket.init && !bucket.resyncOnNextPacket) ==>
                bucket.ring.head
                    == Max(old(bucket.ring.head), BucketRing.Unwrap(old(bucket.ring.head), BucketRing.SeqNum(pkt)))
      ensures old(bucket.init && !bucket.resyncOnNextPacket) ==>
                BucketRing.Next(old(bucket.ring), bucket.maxSteps,
                                BucketRing.Added(old(TrueNumber(BucketRing.SeqNum(pkt))), pkt, ok), bucket.ring)
    {
      var r := bucket.AddPacket(pkt);
      ok := r.Ok?;
    }

    /** Asks for the lost packets that are due; exhausted ones are given up. */
    method RequestLost() returns (nps: seq<NackPairs.Pair>, askKeyframe: bool)
      requires nacker.Valid()
      modifies nacker, this`dropped
      ensures nacker.Valid()
      ensures dropped == old(dropped) + ExhaustedNumbers(old(nacker.nacks))
      ensures nacker.nacks == AfterPairs(old(nacker.nacks), Ext(Count()))
      ensures nps == NackPairs.PairsFor(ToRequest(old(nacker.nacks), Ext(Count())))
      ensures nacker.kfSN == KeyframeSN(old(nacker.nacks), old(nacker.kfSN))
      ensures askKeyframe <==> nacker.kfSN > old(nacker.kfSN)
    {
      dropped := dropped + ExhaustedNumbers(nacker.nacks);
      nps, askKeyframe := nacker.Pairs(cycles * CYCLE + maxSeqNo);
    }

    /** What a call asks for, and leaves of a queue, if it gets as far as that. */
    ghost predicate Asked(q: seq<Nack>, kfSN: u32, asks: bool, nps: seq<NackPairs.Pair>, askKeyframe: bool)
      reads this, nacker
    {
      if nack && asks then
        && nps == NackPairs.PairsFor(ToRequest(q, Ext(Count()))) && nacker.nacks == AfterPairs(q, Ext(Count()))
        && nacker.kfSN == KeyframeSN(q, kfSN) && (askKeyframe <==> nacker.kfSN > kfSN)
      else nps == [] && !askKeyframe && nacker.nacks == q && nacker.kfSN == kfSN
    }

    /** The gap before a packet fits the queue, and each lost number gets its own cycle. */
    ghost predicate GapIsClean(sn: u16)
      reads this, nacker
    {
      |nacker.nacks| + GapSize(Count(), sn) < MAX_NACK_CACHE && GapPicked(Count(), sn, GapSize(Count(), sn))
    }

    /** What the packet must be for the ledger to stay exact. */
    ghost predicate Clean(sn: u16)
      reads this, bucket, nacker
    {
      && nack && Synced() && Exact() && GapIsClean(sn)
      && 0 <= TrueNumber(sn) < 0x1_0000_0000 && Sub16(sn, maxSeqNo) != HALF
    }

    /** The state that LossRequests reasons about, and what a call is there. */
    ghost function LossState(): LossRequests.State
      reads this, bucket, nacker
    {
      LossRequests.State(nacker.nacks, Count(), first, bucket.ring.head, arrived, dropped)
    }

    lemma CleanCall(sn: u16, asks: bool)
      requires Valid() && Clean(sn)
      ensures LossRequests.Exact(LossState())
      ensures LossRequests.Clean(LossState(), LossRequests.Packet(TrueNumber(sn), asks)) && Low16(TrueNumber(sn)) == sn
    {
      LossRequests.Low32Small(bucket.ring.head);
      UnwrapOffset(bucket.ring.head, sn, maxSeqNo);
    }

    /** The ledger, for a head that the bucket is about to reach. */
    ghost predicate ExactAt(head: int)
      reads this, nacker
    {
      Ledger(nacker.nacks, first, head, arrived, dropped) && head in arrived && UpTo(arrived, dropped, head)
    }

    /** Counts a packet after the first one and enters it in the ledger. */
    method CountNext(sn: u16)
      requires Valid() && packetCount > 0
      modifies this`baseSN, this`cycles, this`maxSeqNo, this`arrived, nacker`nacks
      ensures !nack ==> nacker.nacks == old(nacker.nacks)
      ensures nacker.Valid() && Count() == Step(old(Count()), sn)
      ensures arrived == old(arrived) + {old(TrueNumber(sn))}
      ensures nack ==> nacker.nacks == AfterPacket(old(nacker.nacks), old(Count()), sn)
      ensures old(Clean(sn)) ==> ExactAt(Max(bucket.ring.head, TrueNumber(sn)))
    {
      ghost var c, q, head, t, clean := Count(), nacker.nacks, bucket.ring.head, TrueNumber(sn), Clean(sn);
      if clean {
          CleanStep(q, c, first, head, sn, arrived, dropped);
      }
      CountPacket(sn);
      arrived := arrived + {t};
    }

    /** The part of CalcNext up to the bucket. */
    method Take(pkt: seq<byte>) returns (ok: bool)
      requires Valid() && 4 <= |pkt| <= 1498 && packetCount > 0
      modifies this`baseSN, this`cycles, this`maxSeqNo, this`arrived, nacker`nacks, bucket, bucket.buf
      ensures Valid() && Count() == Step(old(Count()), BucketRing.SeqNum(pkt))
      ensures old(Synced()) ==> (Synced() <==> Sub16(BucketRing.SeqNum(pkt), old(maxSeqNo)) != HALF)
      ensures arrived == old(arrived) + {old(TrueNumber(BucketRing.SeqNum(pkt)))}
      ensures nacker.nacks == if nack then AfterPacket(old(nacker.nacks), old(Count()), BucketRing.SeqNum(pkt))
                              else old(nacker.nacks)
      ensures old(Clean(BucketRing.SeqNum(pkt))) ==>
                Exact() && bucket.ring.head == Max(old(bucket.ring.head), old(TrueNumber(BucketRing.SeqNum(pkt))))
      ensures packetCount == old(packetCount)
      ensures old(bucket.init && !bucket.resyncOnNextPacket) ==>
                BucketRing.Next(old(bucket.ring), bucket.maxSteps,
                                BucketRing.Added(old(TrueNumber(BucketRing.SeqNum(pkt))), pkt, ok), bucket.ring)
    {
      var sn := BucketRing.SeqNum(pkt);
      if Synced() {
        InStep(Count(), bucket.ring.head, sn);
      }
      CountNext(sn);
      ok := StorePacket(pkt);
    }

    /** The part of CalcNext behind the bucket. */
    method Request() returns (nps: seq<NackPairs.Pair>, askKeyframe: bool)
      requires Valid() && nack
      modifies nacker, this`dropped
      ensures Valid() && (old(Exact()) ==> Exact())
      ensures dropped == old(dropped) + ExhaustedNumbers(old(nacker.nacks))
      ensures nacker.nacks == AfterPairs(old(nacker.nacks), Ext(Count()))
      ensures nps == NackPairs.PairsFor(ToRequest(old(nacker.nacks), Ext(Count())))
      ensures nacker.kfSN == KeyframeSN(old(nacker.nacks), old(nacker.kfSN))
      ensures askKeyframe <==> nacker.kfSN > old(nacker.kfSN)
    {
      if Exact() {
        RequestsKeepLedger(nacker.nacks, first, bucket.ring.head, arrived, dropped, Ext(Count()));
        LedgerBound(nacker.nacks, first, bucket.ring.head, arrived, dropped);
      }
      nps, askKeyframe := RequestLost();
    }

    /**
     A packet after the first one. The counter and the bucket stay in step unless the packet is
     exactly half a cycle away from the head, which the bucket takes as ahead and the counter as
     late. The queue stays exactly the lost packets when the gap is clean.
     */
    method CalcNext(pkt: seq<byte>, unmarshals: bool, codecParses: bool)
      returns (nps: seq<NackPairs.Pair>, askKeyframe: bool)
      requires Valid() && 4 <= |pkt| <= 1498 && packetCount > 0
      modifies this, nacker, bucket, bucket.buf
      ensures Valid() && Count() == Step(old(Count()), BucketRing.SeqNum(pkt))
      ensures old(Synced()) ==> (Synced() <==> Sub16(BucketRing.SeqNum(pkt), old(maxSeqNo)) != HALF)
      ensures arrived == old(arrived) + {old(TrueNumber(BucketRing.SeqNum(pkt)))} && first == old(first)
      ensures old(Clean(BucketRing.SeqNum(pkt))) ==> Exact()
      ensures old(Clean(BucketRing.SeqNum(pkt))) ==>
                var asks := packetCount > old(packetCount) && codecParses;
                LossState() == LossRequests.Next(old(LossState()),
                                                 LossRequests.Packet(old(TrueNumber(BucketRing.SeqNum(pkt))), asks))
      ensures packetCount == old(packetCount) || (packetCount == old(packetCount) + 1 && unmarshals)
      ensures unmarshals && old(bucket.init && !bucket.resyncOnNextPacket) ==>
                BucketRing.Next(old(bucket.ring), bucket.maxSteps,
                                BucketRing.Added(old(TrueNumber(BucketRing.SeqNum(pkt))), pkt,
                                                 packetCount > old(packetCount)), bucket.ring)
      ensures nack ==>
                Asked(AfterPacket(old(nacker.nacks), old(Count()), BucketRing.SeqNum(pkt)), old(nacker.kfSN),
                      packetCount > old(packetCount) && codecParses, nps, askKeyframe)
      ensures !nack ==>
                nps == [] && !askKeyframe && nacker.nacks == old(nacker.nacks) && nacker.kfSN == old(nacker.kfSN)
    {
      nps, askKeyframe := [], false;
      var ok := Take(pkt);
      if !ok || !unmarshals {
        return;
      }
      packetCount := packetCount + 1;
      if !codecParses {
        return;
      }
      if nack {
        nps, askKeyframe := Request();
      }
    }

    /** No packet has been handed to the buffer yet. */
    ghost predicate Untouched()
      reads this, bucket, nacker
    {
      packetCount == 0 && cycles == 0 && !bucket.init && nacker.nacks == []
    }

    /** A packet while none has been counted yet. */
    method CalcFirst(pkt: seq<byte>, unmarshals: bool, codecParses: bool)
      returns (nps: seq<NackPairs.Pair>, askKeyframe: bool)
      requires Valid() && 4 <= |pkt| <= 1498 && packetCount == 0
      modifies this, nacker, bucket, bucket.buf
      ensures Valid() && Count() == Counter(old(cycles), BucketRing.SeqNum(pkt))
      ensures old(Untouched()) && unmarshals ==> Synced() && Exact() && packetCount == 1
      ensures !old(bucket.init) ==>
                var sn := BucketRing.SeqNum(pkt);
                bucket.ring == BucketRing.Ring(sn, map[sn as int := pkt]) && (packetCount == 1 <==> unmarshals)
      ensures packetCount == old(packetCount) || (packetCount == old(packetCount) + 1 && unmarshals)
      ensures Asked(old(nacker.nacks), old(nacker.kfSN), packetCount > old(packetCount)
              && codecParses, nps, askKeyframe)
    {
      var sn := BucketRing.SeqNum(pkt);
      ghost var untouched := Untouched();
      CountPacket(sn);
      first, arrived, dropped := sn, {sn}, {};
      nps, askKeyframe := [], false;
      var ok := StorePacket(pkt);
      FirstLedger(sn);
      assert untouched ==> Exact() && bucket.ring.head == sn;
      if !ok || !unmarshals {
        return;
      }
      packetCount := packetCount + 1;
      if !codecParses {
        return;
      }
      if nack {
        nps, askKeyframe := Request();
      }
    }

    /**
     One packet, as the buffer's writer calls it. Whether its RTP header and its codec payload
     parse, which only the end of the call depends on, are parameters.
     */
    method Calc(pkt: seq<byte>, unmarshals: bool, codecParses: bool)
      returns (nps: seq<NackPairs.Pair>, askKeyframe: bool)
      requires Valid() && 4 <= |pkt| <= 1498
      modifies this, nacker, bucket, bucket.buf
      ensures Valid()
      ensures old(Untouched()) && unmarshals ==> Synced() && Exact()
      ensures old(Synced()) ==> (Synced() <==> Sub16(BucketRing.SeqNum(pkt), old(maxSeqNo)) != HALF)
      ensures old(Clean(BucketRing.SeqNum(pkt))) ==> Exact()
      ensures packetCount == old(packetCount) || (packetCount == old(packetCount) + 1 && unmarshals)
      ensures Count() == if old(packetCount) == 0 then Counter(old(cycles), BucketRing.SeqNum(pkt))
                         else Step(old(Count()), BucketRing.SeqNum(pkt))
      ensures Asked(if !nack || old(packetCount) == 0 then old(nacker.nacks)
                    else AfterPacket(old(nacker.nacks), old(Count()), BucketRing.SeqNum(pkt)),
                    old(nacker.kfSN), packetCount > old(packetCount) && codecParses, nps, askKeyframe)
    {
      if packetCount == 0 {
        nps, askKeyframe := CalcFirst(pkt, unmarshals, codecParses);
      } else {
        nps, askKeyframe := CalcNext(pkt, unmarshals, codecParses);
      }
    }
  }

  lemma HeadArrived(head: int, t: int, arrived: set<int>, dropped: set<int>)
    requires head in arrived && UpTo(arrived, dropped, head)
    ensures Max(head, t) in arrived + {t} && UpTo(arrived + {t}, dropped, Max(head, t))
  {}

  lemma PushGapNext(q: seq<Nack>, cycles: u16, maxSeqNo: u16, sn: u16, k: u16)
    requires k > 0
    ensures PushGap(q, cycles, maxSeqNo, sn, k)
         == AfterPush(PushGap(q, cycles, maxSeqNo, sn, k - 1), ExtFor(cycles, maxSeqNo, Sub16(sn, k)))
  {}

  lemma FirstLedger(sn: u16)
    ensures Ledger([], sn, sn, {sn}, {}) && UpTo({sn}, {}, sn)
  {}

  /** A packet next to the head, whose number the bucket and the counter agree on, keeps the ledger. */
  lemma CleanStep(q: seq<Nack>, c: Counter, first: int, head: int, sn: u16, arrived: set<int>, dropped: set<int>)
    requires Ext(c) == head && Sub16(sn, c.maxSeqNo) != HALF
    requires 0 <= BucketRing.Unwrap(head, sn) < 0x1_0000_0000
    requires Ledger(q, first, head, arrived, dropped) && head in arrived && UpTo(arrived, dropped, head)
    requires |q| + GapSize(c, sn) < MAX_NACK_CACHE && GapPicked(c, sn, GapSize(c, sn))
    ensures var t := BucketRing.Unwrap(head, sn);
            && Ledger(AfterPacket(q, c, sn), first, Max(head, t), arrived + {t}, dropped)
            && Max(head, t) in arrived + {t} && UpTo(arrived + {t}, dropped, Max(head, t))
  {
    var t := BucketRing.Unwrap(head, sn);
    InStep(c, head, sn);
    PacketKeepsLedger(q, c, first, head, t, sn, arrived, dropped);
    HeadArrived(head, t, arrived, dropped);
  }

  lemma UnwrapOffset(head: int, sn: u16, max: u16)
    requires max == Low16(head)
    ensures BucketRing.Unwrap(head, sn) == head + if Sub16(sn, max) > HALF then Sub16(sn, max) - CYCLE
            else Sub16(sn, max)
  {}

  /**
   Counter and bucket, both at the same head, go on to the same head, except for a packet half a
   cycle away: the counter stays and the bucket moves.
   */
  lemma InStep(c: Counter, head: int, sn: u16)
    requires Ext(c) == Low32(head)
    ensures c.maxSeqNo == Low16(head)
    ensures Sub16(sn, c.maxSeqNo) != HALF ==>
              var head' := Max(head, BucketRing.Unwrap(head, sn));
              && Step(c, sn).maxSeqNo == Low16(head') && Ext(Step(c, sn)) == Low32(head')
              && InReach(head, BucketRing.Unwrap(head, sn))
    ensures Sub16(sn, c.maxSeqNo) == HALF ==>
              && Step(c, sn) == c && BucketRing.Unwrap(head, sn) == head + HALF && Low16(head + HALF) != c.maxSeqNo
  {
    Low16OfLow32(head);
    ExtLow(c);
    UnwrapOffset(head, sn, c.maxSeqNo);
    if Sub16(sn, c.maxSeqNo) != HALF {
      StepShows(c, head, BucketRing.Unwrap(head, sn), sn);
    } else {
      Low16Injective(head, HALF);
    }
  }

  /** The counter after a packet in reach shows the higher of the two numbers. */
  lemma StepShows(c: Counter, head: int, t: int, sn: u16)
    requires Ext(c) == Low32(head) && InReach(head, t) && sn == Low16(t)
    ensures var c' := Step(c, sn);
            Ext(c') == Low32(Max(head, t)) && c'.maxSeqNo == Low16(Max(head, t))
  {
    StepIsCorrect(c, head, t);
    Low16OfLow32(Max(head, t));
    ExtLow(Step(c, sn));
  }

  /**
   Half a cycle ahead, or half a cycle late: after 0 a packet with number 0x8000 leaves the counter
   at 0 and moves the bucket's head to 0x8000.
   */
  lemma HalfCycleSplits()
    ensures Step(Counter(0, 0), 0x8000) == Counter(0, 0) && BucketRing.Unwrap(0, 0x8000) == 0x8000
  {}
}
