/**
 Which lost packets the NACK queue of a buffer holds: the queue after the sequence number part
 of Buffer.calc as a function, and the ledger that it keeps.
 */
module LossLedger {
  import opened Words
  import opened SequenceCounter
  import opened NackQueue

  /** The queue after the first k numbers below a packet that jumped ahead were pushed. */
  function PushGap(q: seq<Nack>, cycles: u16, maxSeqNo: u16, sn: u16, k: u16): seq<Nack>
  {
    if k == 0 then q
    else AfterPush(PushGap(q, cycles, maxSeqNo, sn, k - 1), ExtFor(cycles, maxSeqNo, Sub16(sn, k)))
  }

  /** How many numbers a packet skips. */
  function GapSize(c: Counter, sn: u16): u16 {
    if Ahead(c, sn) && sn != c.maxSeqNo then Sub16(sn, c.maxSeqNo) - 1 else 0
  }

  /** The queue after a packet that is not the first: gaps are pushed, a late packet is removed. */
  function AfterPacket(q: seq<Nack>, c: Counter, sn: u16): seq<Nack>
  {
    if Ahead(c, sn) then PushGap(q, Step(c, sn).cycles, c.maxSeqNo, sn, GapSize(c, sn))
    else AfterRemove(q, ExtFor(c.cycles, c.maxSeqNo, sn))
  }

  // ---------------------------------------------------------------- the ledger

  ghost predicate Unique(q: seq<Nack>) {
    forall i, j :: 0 <= i < j < |q| ==> q[i].sn < q[j].sn
  }

  /**
   The queue holds exactly the numbers between the first packet and the highest one that have
   neither arrived nor been given up after five requests.
   */
  ghost predicate Ledger(q: seq<Nack>, first: int, head: int, arrived: set<int>, dropped: set<int>) {
    && Inv(q) && Unique(q) && 0 <= first <= head < 0x1_0000_0000
    && forall t: u32 :: Contains(q, t) <==> first < t < head && t !in arrived && t !in dropped
  }

  lemma PushOne(q: seq<Nack>, t: u32)
    requires Inv(q) && Unique(q) && |q| + 1 < MAX_NACK_CACHE && !Contains(q, t)
    ensures var r := AfterPush(q, t);
            && Inv(r) && Unique(r) && |r| == |q| + 1
            && forall x: u32 :: Contains(r, x) <==> Contains(q, x) || x == t
  {
    var i := Position(q, t);
    PositionIsLowerBound(q, t);
    FoundIffContained(q, i, t);
    InsertKeepsInv(q, i, t);
    Inserted(q, i, t);
    assert forall k :: i <= k < |q| ==> q[k].sn > t;
  }

  lemma RemoveOne(q: seq<Nack>, t: u32)
    requires Inv(q) && Unique(q)
    ensures var r := AfterRemove(q, t);
            && Inv(r) && Unique(r) && |r| <= |q|
            && forall x: u32 :: Contains(r, x) <==> Contains(q, x) && x != t
  {
    var i := Position(q, t);
    PositionIsLowerBound(q, t);
    RemoveKeepsInv(q, i, t);
    RemoveIsDeletion(q, i, t);
    var r := AfterRemove(q, t);
    if i < |q| && q[i].sn == t {
      assert forall k :: 0 <= k < |r| ==> r[k] == if k < i then q[k] else q[k + 1];
    } else {
      FoundIffContained(q, i, t);
    }
  }

  /** The k-th skipped number, counted down from a packet that jumped ahead, as the code computes it. */
  lemma SkippedNumber(c: Counter, head: int, sn: u16, k: u16)
    requires Ext(c) == head && Ahead(c, sn) && 1 <= k <= GapSize(c, sn)
    requires head + Sub16(sn, c.maxSeqNo) < 0x1_0000_0000 && CyclePicked(c, sn, Sub16(sn, k))
    ensures ExtFor(Step(c, sn).cycles, c.maxSeqNo, Sub16(sn, k)) == head + Sub16(sn, c.maxSeqNo) - k
  {
    SkippedNumberIsCorrectIff(c, sn, k);
    StepForward(c, Sub16(sn, c.maxSeqNo));
  }

  /** r is q with the numbers from top - k up to top added, one entry each. */
  ghost predicate Added(q: seq<Nack>, r: seq<Nack>, top: int, k: nat) {
    && Inv(r) && Unique(r) && |r| == |q| + k
    && forall x: u32 :: Contains(r, x) <==> Contains(q, x) || top - k <= x < top
  }

  lemma AddedOne(q: seq<Nack>, r: seq<Nack>, top: int, k: nat, t: u32)
    requires Added(q, r, top, k) && t == top - k - 1 && |r| + 1 < MAX_NACK_CACHE && !Contains(q, t)
    ensures Added(q, AfterPush(r, t), top, k + 1)
  {
    PushOne(r, t);
  }

  ghost predicate NoneFrom(q: seq<Nack>, head: int) {
    forall x: u32 :: Contains(q, x) ==> x < head
  }

  /** Every skipped number gets its own cycle. */
  ghost predicate GapPicked(c: Counter, sn: u16, k: u16) {
    forall i :: 1 <= i <= k ==> CyclePicked(c, sn, Sub16(sn, i))
  }

  /** The first k of the skipped numbers. */
  lemma {:induction false} GapPushed(q: seq<Nack>, c: Counter, head: int, sn: u16, k: u16)
    requires Ext(c) == head && Ahead(c, sn) && k <= GapSize(c, sn)
    requires head + Sub16(sn, c.maxSeqNo) < 0x1_0000_0000
    requires Inv(q) && Unique(q) && |q| + k < MAX_NACK_CACHE && NoneFrom(q, head) && GapPicked(c, sn, k)
    ensures Added(q, PushGap(q, Step(c, sn).cycles, c.maxSeqNo, sn, k), head + Sub16(sn, c.maxSeqNo), k)
  {
    if k > 0 {
      GapPushed(q, c, head, sn, k - 1);
      SkippedNumber(c, head, sn, k);
      AddedOne(q, PushGap(q, Step(c, sn).cycles, c.maxSeqNo, sn, k - 1), head + Sub16(sn, c.maxSeqNo), k - 1,
               head + Sub16(sn, c.maxSeqNo) - k);
    }
  }

  /** Nothing beyond the head has arrived or was given up. */
  ghost predicate UpTo(arrived: set<int>, dropped: set<int>, head: int) {
    forall x :: x in arrived || x in dropped ==> x <= head
  }

  lemma LedgerGrows(q: seq<Nack>, r: seq<Nack>, first: int, head: int, t: int, arrived: set<int>, dropped: set<int>)
    requires Ledger(q, first, head, arrived, dropped) && head in arrived && UpTo(arrived, dropped, head)
    requires head <= t < 0x1_0000_0000 && Added(q, r, t, if t == head then 0 else t - head - 1)
    ensures Ledger(r, first, t, arrived + {t}, dropped)
  {}

  lemma LedgerShrinks(q: seq<Nack>, r: seq<Nack>, first: int, head: int, t: u32, arrived: set<int>, dropped: set<int>)
    requires Ledger(q, first, head, arrived, dropped) && Inv(r) && Unique(r)
    requires forall x: u32 :: Contains(r, x) <==> Contains(q, x) && x != t
    ensures Ledger(r, first, head, arrived + {t}, dropped)
  {}

  lemma LedgerNoneFrom(q: seq<Nack>, first: int, head: int, arrived: set<int>, dropped: set<int>)
    requires Ledger(q, first, head, arrived, dropped)
    ensures NoneFrom(q, head)
  {}

  /** sn is the number t as a packet next to the head shows it. */
  ghost predicate Shows(c: Counter, head: int, t: int, sn: u16) {
    && Ext(c) == head && 0 <= t < 0x1_0000_0000
    && (t >= head ==> Ahead(c, sn) && Sub16(sn, c.maxSeqNo) == t - head && (sn == c.maxSeqNo <==> t == head))
    && (t < head ==> !Ahead(c, sn) && Sub16(c.maxSeqNo, sn) == head - t)
  }

  lemma InReachShows(c: Counter, head: int, t: int)
    requires Ext(c) == head && InReach(head, t) && 0 <= t < 0x1_0000_0000
    ensures Shows(c, head, t, Low16(t))
  {
    ExtLow(c);
    if t >= head {
      Low16Sum(head, t - head);
    } else {
      Low16Sum(head, head - t);
    }
  }

  lemma Behind32(head: u32, d: nat)
    requires d <= head
    ensures Sub32(head, d) == head - d
  {}

  lemma ForwardKeepsLedger(q: seq<Nack>, c: Counter, first: int, head: int, t: int, sn: u16, arrived: set<int>,
                           dropped: set<int>)
    requires Shows(c, head, t, sn) && t >= head
    requires Ledger(q, first, head, arrived, dropped) && head in arrived && UpTo(arrived, dropped, head)
    requires |q| + GapSize(c, sn) < 100 && GapPicked(c, sn, GapSize(c, sn))
    ensures Ledger(AfterPacket(q, c, sn), first, t, arrived + {t}, dropped)
  {
    LedgerNoneFrom(q, first, head, arrived, dropped);
    GapPushed(q, c, head, sn, GapSize(c, sn));
    LedgerGrows(q, AfterPacket(q, c, sn), first, head, t, arrived, dropped);
  }

  lemma LateKeepsLedger(q: seq<Nack>, c: Counter, first: int, head: int, t: int, sn: u16, arrived: set<int>,
                        dropped: set<int>)
    requires Shows(c, head, t, sn) && t < head && Ledger(q, first, head, arrived, dropped)
    ensures Ledger(AfterPacket(q, c, sn), first, head, arrived + {t}, dropped)
  {
    LateNumberIsCorrect(c, sn);
    Behind32(head, head - t);
    RemoveOne(q, t);
    LedgerShrinks(q, AfterRemove(q, t), first, head, t, arrived, dropped);
  }

  /**
   One packet keeps the ledger, with the packet arrived and the head moved to the higher number,
   if the skipped numbers get their own cycle and the queue stays below 100 entries.
   */
  lemma PacketKeepsLedger(q: seq<Nack>, c: Counter, first: int, head: int, t: int, sn: u16, arrived: set<int>,
                          dropped: set<int>)
    requires Ext(c) == head && InReach(head, t) && 0 <= t < 0x1_0000_0000 && sn == Low16(t)
    requires Ledger(q, first, head, arrived, dropped) && head in arrived && UpTo(arrived, dropped, head)
    requires |q| + GapSize(c, sn) < 100 && GapPicked(c, sn, GapSize(c, sn))
    ensures Ledger(AfterPacket(q, c, sn), first, Max(head, t), arrived + {t}, dropped)
  {
    InReachShows(c, head, t);
    if t >= head {
      ForwardKeepsLedger(q, c, first, head, t, sn, arrived, dropped);
    } else {
      LateKeepsLedger(q, c, first, head, t, sn, arrived, dropped);
    }
  }

  function ExhaustedNumbers(q: seq<Nack>): set<int> {
    set n | n in q && Exhausted(n) :: n.sn
  }

  /** A round of requests gives up the exhausted numbers, and no others. */
  lemma RequestsKeepLedger(q: seq<Nack>, first: int, head: int, arrived: set<int>, dropped: set<int>, headSN: u32)
    requires Ledger(q, first, head, arrived, dropped)
    ensures Ledger(AfterPairs(q, headSN), first, head, arrived, dropped + ExhaustedNumbers(q))
  {
    PairsKeepInv(q, headSN);
    PairsKeepUnique(q, headSN);
    AfterPairsEntries(q, headSN);
    var r := AfterPairs(q, headSN);
    forall t: u32
      ensures Contains(r, t) <==> Contains(q, t) && t !in ExhaustedNumbers(q)
    {
      if Contains(r, t) {
        var i :| 0 <= i < |r| && r[i].sn == t;
        assert r[i] in r;
        var y :| y in q && !Exhausted(y) && r[i] == Counted(y, headSN);
        var j :| 0 <= j < |q| && q[j] == y;
      }
      if Contains(q, t) && t !in ExhaustedNumbers(q) {
        var i :| 0 <= i < |q| && q[i].sn == t;
        assert q[i] in q && !Exhausted(q[i]);
        assert Counted(q[i], headSN) in r;
      }
    }
  }

  lemma LedgerBound(q: seq<Nack>, first: int, head: int, arrived: set<int>, dropped: set<int>)
    requires Ledger(q, first, head, arrived, dropped) && UpTo(arrived, dropped, head)
    ensures UpTo(arrived, dropped + ExhaustedNumbers(q), head)
  {
    forall x | x in ExhaustedNumbers(q) ensures x <= head {
      var n :| n in q && Exhausted(n) && n.sn == x;
      assert Contains(q, n.sn);
    }
  }

  lemma {:induction false} PairsKeepUnique(q: seq<Nack>, headSN: u32)
    requires Unique(q)
    ensures Unique(AfterPairs(q, headSN))
    ensures forall x :: x in AfterPairs(q, headSN) ==> q != [] && x.sn <= q[|q| - 1].sn
  {
    if q != [] {
      var init := q[..|q| - 1];
      PairsKeepUnique(init, headSN);
      var r := AfterPairs(init, headSN);
      assert forall k :: 0 <= k < |r| ==> r[k] in r;
      assert init != [] ==> init[|init| - 1].sn < q[|q| - 1].sn;
    }
  }
}
