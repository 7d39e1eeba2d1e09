/**
 The sequencer of a down track: a ring of packet metadata below the highest target sequence
 number, asked for the packets that a receiver reports as lost.
 */
module PacketSequencer {
  import opened Words
  import opened PacketBucket

  const IGNORE_RETRANSMISSION := 100

  datatype PacketMeta = PacketMeta(sourceSeqNo: u16, targetSeqNo: u16, timestamp: u32, lastNack: u32, layer: byte,
                                   misc: u32)

  const ZERO_META := PacketMeta(0, 0, 0, 0, 0, 0)

  /** setVP8PayloadMeta: tlz0Idx<<16 | picID, whose bits do not meet. */
  function WithVP8Meta(m: PacketMeta, tlz0Idx: byte, picID: u16): PacketMeta {
    m.(misc := tlz0Idx * 0x1_0000 + picID)
  }

  function VP8TlzIdx(m: PacketMeta): byte {
    Low8(High16(m.misc))
  }

  function VP8PicID(m: PacketMeta): u16 {
    Low16(m.misc)
  }

  lemma VP8MetaRoundTrip(m: PacketMeta, tlz0Idx: byte, picID: u16)
    ensures VP8TlzIdx(WithVP8Meta(m, tlz0Idx, picID)) == tlz0Idx && VP8PicID(WithVP8Meta(m, tlz0Idx, picID)) == picID
  {
    Low16Cycles(picID, tlz0Idx);
    High16Of(tlz0Idx, picID);
  }

  // ---------------------------------------------------------------- looking numbers up

  /** n.step - int(n.headSN-sn) - 1, moved up once by max; negative when the packet is too old. */
  function LookupIndex(step: nat, diff: nat, max: nat): int {
    var s := step - diff - 1;
    if s >= 0 then s else if -s >= max then -1 else max + s
  }

  /**
   Within the ring, the code looks a number up in its own slot, except the oldest one while the
   next packet goes to slot 0.
   */
  lemma FindableIff(step: nat, d: nat, max: nat)
    requires step < max && d < max
    ensures LookupIndex(step, d, max) == SlotIndex(step, d, max) <==> d < max - 1 || step != 0
    ensures -1 <= LookupIndex(step, d, max) < max
  {}

  /** Whether a slot answers a request: it shows the number and was not sent again just before. */
  predicate Answers(m: PacketMeta, sn: u16, refTime: u32) {
    m.targetSeqNo == sn && (m.lastNack == 0 || Sub32(refTime, m.lastNack) > IGNORE_RETRANSMISSION)
  }

  datatype Answer = Answer(slots: seq<PacketMeta>, metas: seq<PacketMeta>)

  /** One number of a request. */
  function AskOne(a: Answer, step: nat, headSN: u16, sn: u16, refTime: u32): (r: Answer)
    requires step < |a.slots|
    ensures |r.slots| == |a.slots|
  {
    var j := LookupIndex(step, Sub16(headSN, sn), |a.slots|);
    if 0 <= j < |a.slots| && Answers(a.slots[j], sn, refTime) then
      var m := a.slots[j].(lastNack := refTime);
      Answer(a.slots[j := m], a.metas + [m])
    else a
  }

  /** All numbers of a request, in order. */
  function Ask(slots: seq<PacketMeta>, step: nat, headSN: u16, sns: seq<u16>, refTime: u32): (r: Answer)
    requires step < |slots|
    ensures |r.slots| == |slots|
  {
    if sns == [] then Answer(slots, [])
    else AskOne(Ask(slots, step, headSN, sns[..|sns| - 1], refTime), step, headSN, sns[|sns| - 1], refTime)
  }

  function Plain(m: PacketMeta): PacketMeta {
    m.(lastNack := 0)
  }

  /** A request changes nothing but the time of the last answer, and what it gives back is what the slots hold. */
  lemma {:induction false} AskKeepsEntries(slots: seq<PacketMeta>, step: nat, headSN: u16, sns: seq<u16>, refTime: u32)
    requires step < |slots|
    ensures var r := Ask(slots, step, headSN, sns, refTime);
            && (forall j :: 0 <= j < |slots| ==> Plain(r.slots[j]) == Plain(slots[j]))
            && (forall j :: 0 <= j < |slots| ==> r.slots[j] == slots[j] || r.slots[j].lastNack == refTime)
  {
    if sns != [] {
      AskKeepsEntries(slots, step, headSN, sns[..|sns| - 1], refTime);
    }
  }

  /** The slot in which the code looks a number up. */
  ghost predicate LooksIn(step: nat, headSN: u16, sn: u16, max: nat, j: nat) {
    j < max && LookupIndex(step, Sub16(headSN, sn), max) == j
  }

  /**
   A slot that can answer does: whichever request for its number comes first gets its metadata,
   and from then on it was answered at the time of the request.
   */
  lemma {:induction false} AskFinds(slots: seq<PacketMeta>, step: nat, headSN: u16, sns: seq<u16>, refTime: u32,
                                    sn: u16, j: nat)
    requires step < |slots| && LooksIn(step, headSN, sn, |slots|, j) && Answers(slots[j], sn, refTime)
    ensures var r := Ask(slots, step, headSN, sns, refTime);
            if sn in sns then slots[j].(lastNack := refTime) in r.metas && r.slots[j] == slots[j].(lastNack := refTime)
            else r.slots[j] == slots[j]
  {
    if sns != [] {
      var init, x := sns[..|sns| - 1], sns[|sns| - 1];
      AskFinds(slots, step, headSN, init, refTime, sn, j);
      AskKeepsEntries(slots, step, headSN, init, refTime);
      assert sns == init + [x];
    }
  }

  /** A slot that was answered less than 100 ms ago stays silent. */
  lemma {:induction false} AskSkipsRecent(slots: seq<PacketMeta>, step: nat, headSN: u16, sns: seq<u16>, refTime: u32,
                                          sn: u16, j: nat)
    requires step < |slots| && LooksIn(step, headSN, sn, |slots|, j)
    requires slots[j].targetSeqNo == sn && slots[j].lastNack != 0
    requires Sub32(refTime, slots[j].lastNack) <= 100
    ensures var r := Ask(slots, step, headSN, sns, refTime);
            r.slots[j] == slots[j] && forall m :: m in r.metas ==> m.targetSeqNo != sn
  {
    if sns != [] {
      AskSkipsRecent(slots, step, headSN, sns[..|sns| - 1], refTime, sn, j);
      AskKeepsEntries(slots, step, headSN, sns[..|sns| - 1], refTime);
    }
  }

  /** A slot that was never filled answers a request for number 0, with metadata of no packet. */
  lemma UnusedSlotAnswersZero(slots: seq<PacketMeta>, step: nat, headSN: u16, refTime: u32, j: nat)
    requires step < |slots| && LooksIn(step, headSN, 0, |slots|, j) && slots[j] == ZERO_META
    ensures Ask(slots, step, headSN, [0], refTime).metas == [ZERO_META.(lastNack := refTime)]
  {
    assert [0 as u16][..0] == [];
    assert Ask(slots, step, headSN, [], refTime) == Answer(slots, []);
  }

  /** Several requests, one after the other, each at its own time. */
  function AskAll(slots: seq<PacketMeta>, step: nat, headSN: u16, requests: seq<seq<u16>>, times: seq<u32>): (r: Answer)
    requires step < |slots| && |requests| == |times|
    ensures |r.slots| == |slots|
  {
    if requests == [] then Answer(slots, [])
    else
      var n := |requests| - 1;
      var a := AskAll(slots, step, headSN, requests[..n], times[..n]);
      var r := Ask(a.slots, step, headSN, requests[n], times[n]);
      Answer(r.slots, a.metas + r.metas)
  }

  /** A slot that may answer at all these times does so, at the first request that names its number. */
  lemma {:induction false} AskAllFinds(slots: seq<PacketMeta>, step: nat, headSN: u16, requests: seq<seq<u16>>,
                                       times: seq<u32>,
                                       sn: u16, j: nat) returns (at: u32)
    requires step < |slots| && |requests| == |times| && LooksIn(step, headSN, sn, |slots|, j)
    requires forall i :: 0 <= i < |times| ==> Answers(slots[j], sn, times[i])
    ensures var r := AskAll(slots, step, headSN, requests, times);
            if exists i :: 0 <= i < |requests| && sn in requests[i] then slots[j].(lastNack := at) in r.metas
            else r.slots[j] == slots[j]
  {
    at := 0;
    if requests != [] {
      var n := |requests| - 1;
      var before := AskAll(slots, step, headSN, requests[..n], times[..n]);
      at := AskAllFinds(slots, step, headSN, requests[..n], times[..n], sn, j);
      if i :| 0 <= i < n && sn in requests[i] {
        assert requests[..n][i] == requests[i];
      } else {
        AskFinds(before.slots, step, headSN, requests[n], times[n], sn, j);
        at := times[n];
      }
    }
  }

  /** Every answer of a request is in the slot it is looked up in, and no two answers are for one number. */
  ghost predicate OnceEach(a: Answer, step: nat, headSN: u16, refTime: u32) {
    && (forall x, y :: 0 <= x < y < |a.metas| ==> a.metas[x].targetSeqNo != a.metas[y].targetSeqNo)
    && (forall x :: 0 <= x < |a.metas| ==> AnsweredAt(a.slots, step, headSN, a.metas[x], refTime))
  }

  lemma OnceMore(a: Answer, step: nat, headSN: u16, sn: u16, refTime: u32)
    requires step < |a.slots| && refTime != 0 && OnceEach(a, step, headSN, refTime)
    ensures OnceEach(AskOne(a, step, headSN, sn, refTime), step, headSN, refTime)
  {
    var r := AskOne(a, step, headSN, sn, refTime);
    var j := LookupIndex(step, Sub16(headSN, sn), |a.slots|);
    if 0 <= j < |a.slots| && Answers(a.slots[j], sn, refTime) {
      assert Sub32(refTime, refTime) == 0;
      forall x | 0 <= x < |a.metas|
        ensures a.metas[x].targetSeqNo != sn && AnsweredAt(r.slots, step, headSN, a.metas[x], refTime)
      {
        assert AnsweredAt(a.slots, step, headSN, a.metas[x], refTime);
      }
    }
  }

  /** With a clock that is not 0, a request gets no packet twice, however often it names it. */
  lemma {:induction false} AskOnce(slots: seq<PacketMeta>, step: nat, headSN: u16, sns: seq<u16>, refTime: u32)
    requires step < |slots| && refTime != 0
    ensures OnceEach(Ask(slots, step, headSN, sns, refTime), step, headSN, refTime)
  {
    if sns != [] {
      var init := sns[..|sns| - 1];
      AskOnce(slots, step, headSN, init, refTime);
      OnceMore(Ask(slots, step, headSN, init, refTime), step, headSN, sns[|sns| - 1], refTime);
    }
  }

  /** The metadata is in the slot in which its own number is looked up, with the time of the request. */
  ghost predicate AnsweredAt(slots: seq<PacketMeta>, step: nat, headSN: u16, m: PacketMeta, refTime: u32) {
    var j := LookupIndex(step, Sub16(headSN, m.targetSeqNo), |slots|);
    0 <= j < |slots| && slots[j] == m && m.lastNack == refTime
  }

  // ---------------------------------------------------------------- the class

  /** n turns of "step++, and back to 0 at max". */
  function Advance(step: nat, n: nat, max: nat): (r: nat)
    requires step < max
    ensures r < max
  {
    if n == 0 then step
    else
      var s := Advance(step, n - 1, max);
      if s + 1 >= max then 0 else s + 1
  }

  lemma {:induction false} AdvanceIsWrap(step: nat, n: nat, max: nat)
    requires step < max
    ensures Advance(step, n, max) == WrapOf(step + n, max)
  {
    if n > 0 {
      AdvanceIsWrap(step, n - 1, max);
      WrapNext(step + n - 1, max);
    }
  }

  /** Every entry is within the ring, in the slot of its number. */
  ghost predicate Filed(entries: map<int, PacketMeta>, slots: seq<PacketMeta>, step: nat, head: int)
    requires step < |slots|
  {
    forall k :: k in entries ==>
      && head - |slots| < k <= head
      && Plain(slots[SlotIndex(step, head - k, |slots|)]) == entries[k]
      && entries[k].targetSeqNo == Low16(k)
  }

  /** The entries after the head has moved, or, without a move, when it was pushed again. */
  ghost function EntriesAfter(was: map<int, PacketMeta>, head: int, inc: nat, m: PacketMeta, max: nat)
    : map<int, PacketMeta>
  {
    if inc == 0 then map[head := m] else (map k | k in was && head + inc - max < k :: was[k])[head + inc := m]
  }

  /** Where the numbers of the ring are once the head has moved. */
  ghost predicate Moved(step: nat, step': nat, inc: nat, max: nat)
    requires step < max && step' < max
  {
    forall d: nat :: d + inc < max ==> SlotIndex(step', d + inc, max) == SlotIndex(step, d, max)
  }

  lemma FiledAfter(was: map<int, PacketMeta>, slots: seq<PacketMeta>, step: nat, head: int, inc: nat, m: PacketMeta,
                   step': nat)
    requires step < |slots| && step' < |slots| && Filed(was, slots, step, head)
    requires m == Plain(m) && m.targetSeqNo == Low16(head + inc)
    requires inc > 0 ==> Moved(step, step', inc, |slots|)
    ensures Filed(EntriesAfter(was, head, inc, m, |slots|), slots[SlotIndex(step', 0, |slots|) := m], step', head + inc)
  {
    if inc > 0 {
      forall k | k in was && head + inc - |slots| < k
        ensures SlotIndex(step', head + inc - k, |slots|) == SlotIndex(step, head - k, |slots|)
        ensures SlotIndex(step', head + inc - k, |slots|) != SlotIndex(step', 0, |slots|)
      {
        assert head - k + inc < |slots|;
        IndexInjective(step', head + inc - k, 0, |slots|);
      }
    }
  }

  // ---------------------------------------------------------------- what each slot was filled with

  /** The unwrapped target of the packet whose metadata a slot has. */
  datatype Filling = Unfilled | Pushed(number: int)

  ghost predicate Labeled(fillings: seq<Filling>, slots: seq<PacketMeta>) {
    && |fillings| == |slots|
    && forall j :: 0 <= j < |slots| ==>
         match fillings[j]
         case Unfilled => Plain(slots[j]) == ZERO_META
         case Pushed(n) => slots[j].targetSeqNo == Low16(n)
  }

  lemma LabeledAfter(fillings: seq<Filling>, slots: seq<PacketMeta>, j: nat, m: PacketMeta, n: int)
    requires Labeled(fillings, slots) && j < |slots| && m.targetSeqNo == Low16(n)
    ensures Labeled(fillings[j := Pushed(n)], slots[j := m])
  {}

  ghost predicate Below(fillings: seq<Filling>, head: int) {
    forall j :: 0 <= j < |fillings| && fillings[j].Pushed? ==> fillings[j].number <= head
  }

  /**
   A slot has the number it is for, if that was pushed, and otherwise nothing or what an earlier
   number left there.
   */
  ghost predicate InStep(fillings: seq<Filling>, entries: map<int, PacketMeta>, step: nat, head: int)
    requires step < |fillings|
  {
    forall d: nat :: d < |fillings| ==>
      var f := fillings[SlotIndex(step, d, |fillings|)];
      (f.Pushed? ==> f.number <= head - d) && (head - d in entries <==> f == Pushed(head - d))
  }

  lemma InStepAfter(fillings: seq<Filling>, was: map<int, PacketMeta>, step: nat, head: int, inc: nat, m: PacketMeta,
                    step': nat)
    requires step < |fillings| && step' < |fillings| && inc > 0 && Moved(step, step', inc, |fillings|)
    requires InStep(fillings, was, step, head) && Below(fillings, head)
    requires forall k :: k in was ==> k <= head
    ensures var filled := fillings[SlotIndex(step', 0, |fillings|) := Pushed(head + inc)];
            && InStep(filled, EntriesAfter(was, head, inc, m, |fillings|), step', head + inc)
               && Below(filled, head + inc)
  {
    var max := |fillings|;
    var filled := fillings[SlotIndex(step', 0, max) := Pushed(head + inc)];
    var entries := EntriesAfter(was, head, inc, m, max);
    forall d: nat | d < max
      ensures var f := filled[SlotIndex(step', d, max)];
              (f.Pushed? ==> f.number <= head + inc - d) && (head + inc - d in entries <==> f == Pushed(head + inc - d))
    {
      IndexInjective(step', d, 0, max);
      if d >= inc {
        assert SlotIndex(step', d - inc + inc, max) == SlotIndex(step, d - inc, max);
      }
    }
  }

  /** The slot of every entry was filled with its number. */
  ghost predicate Marked(entries: map<int, PacketMeta>, fillings: seq<Filling>, step: nat, head: int)
    requires step < |fillings|
  {
    forall k :: k in entries ==>
        head - |fillings| < k <= head && fillings[SlotIndex(step, head - k, |fillings|)] == Pushed(k)
  }

  lemma MarkedAfter(was: map<int, PacketMeta>, fillings: seq<Filling>, step: nat, head: int, inc: nat, m: PacketMeta,
                    step': nat)
    requires step < |fillings| && step' < |fillings| && Marked(was, fillings, step, head)
    requires inc > 0 ==> Moved(step, step', inc, |fillings|)
    ensures Marked(EntriesAfter(was, head, inc, m, |fillings|),
                   fillings[SlotIndex(step', 0, |fillings|) := Pushed(head + inc)],
                   step', head + inc)
  {
    if inc > 0 {
      forall k | k in was && head + inc - |fillings| < k
        ensures SlotIndex(step', head + inc - k, |fillings|) == SlotIndex(step, head - k, |fillings|)
        ensures SlotIndex(step', head + inc - k, |fillings|) != SlotIndex(step', 0, |fillings|)
      {
        assert head - k + inc < |fillings|;
        IndexInjective(step', head + inc - k, 0, |fillings|);
      }
    }
  }

  /** What a sequencer keeps of its slots. */
  ghost predicate RingKept(entries: map<int, PacketMeta>, slots: seq<PacketMeta>, fillings: seq<Filling>, inStep: bool,
                           step: nat, head: int) {
    && step < |slots| && Filed(entries, slots, step, head)
    && Labeled(fillings, slots) && Marked(entries, fillings, step, head)
    && (inStep ==> InStep(fillings, entries, step, head) && Below(fillings, head))
  }

  /** A head packet keeps it. */
  lemma HeadKeepsRing(was: map<int, PacketMeta>, slots: seq<PacketMeta>, fillings: seq<Filling>, inStep: bool,
                      step: nat, head: int, inc: nat, m: PacketMeta, step': nat)
    requires RingKept(was, slots, fillings, inStep, step, head) && step' < |slots|
    requires m == Plain(m) && m.targetSeqNo == Low16(head + inc) && (inc > 0 ==> Moved(step, step', inc, |slots|))
    ensures var top := SlotIndex(step', 0, |slots|);
            RingKept(EntriesAfter(was, head, inc, m, |slots|), slots[top := m], fillings[top := Pushed(head + inc)],
                     inStep && inc > 0, step', head + inc)
  {
    FiledAfter(was, slots, step, head, inc, m, step');
    LabeledAfter(fillings, slots, SlotIndex(step', 0, |slots|), m, head + inc);
    MarkedAfter(was, fillings, step, head, inc, m, step');
    if inStep && inc > 0 {
      InStepAfter(fillings, was, step, head, inc, m, step');
    }
  }

  /** And so does the very first one. */
  lemma FirstKeepsRing(slots: seq<PacketMeta>, fillings: seq<Filling>, step: nat, m: PacketMeta)
    requires step < |slots| && Labeled(fillings, slots) && m == Plain(m)
    requires forall j :: 0 <= j < |fillings| ==> fillings[j].Unfilled?
    ensures var top, head := SlotIndex(step, 0, |slots|), m.targetSeqNo as int;
            RingKept(map[head := m], slots[top := m], fillings[top := Pushed(head)], true, step, head)
  {
    var top, head := SlotIndex(step, 0, |slots|), m.targetSeqNo as int;
    LabeledAfter(fillings, slots, top, m, head);
    OnlyOneInStep(fillings[top := Pushed(head)], map[head := m], step, head);
  }

  /**
   A slot shows a number that was not pushed exactly when it was never filled and the number is
   0 on 16 bits, or what it was filled with is whole cycles of 2^16 older.
   */
  lemma StrangerIff(fillings: seq<Filling>, entries: map<int, PacketMeta>, slots: seq<PacketMeta>, step: nat,
                    head: int, k: int)
    requires step < |slots| && Labeled(fillings, slots) && InStep(fillings, entries, step, head)
    requires head - |slots| < k <= head
    ensures var j := SlotIndex(step, head - k, |slots|);
            (slots[j].targetSeqNo == Low16(k) && k !in entries) <==>
            ((fillings[j].Unfilled? && Low16(k) == 0)
             || (fillings[j].Pushed? && fillings[j].number < k && Low16(fillings[j].number) == Low16(k)))
  {
    var f := fillings[SlotIndex(step, head - k, |slots|)];
    assert (f.Pushed? ==> f.number <= head - (head - k))
        && (head - (head - k) in entries <==> f == Pushed(head - (head - k)));
  }

  /**
   In a ring of at most a cycle, a slot left over from a number less than a cycle older never shows a
   newer number.
   */
  lemma YoungLeftoverIsSilent(n: int, k: int)
    requires n < k < n + 0x1_0000
    ensures Low16(n) != Low16(k)
  {
    Low16Injective(n, k - n);
  }

  // ---------------------------------------------------------------- runs of head packets

  datatype HeadPush = HeadPush(inc: nat, meta: PacketMeta)

  ghost function HeadAfter(start: int, ps: seq<HeadPush>): int {
    if ps == [] then start else HeadAfter(start, ps[..|ps| - 1]) + ps[|ps| - 1].inc
  }

  ghost function RunEntries(start: int, ps: seq<HeadPush>, max: nat): map<int, PacketMeta> {
    if ps == [] then map[]
    else
      var init, last := ps[..|ps| - 1], ps[|ps| - 1];
      EntriesAfter(RunEntries(start, init, max), HeadAfter(start, init), last.inc, last.meta, max)
  }

  ghost predicate Increasing(ps: seq<HeadPush>) {
    forall i :: 0 < i < |ps| ==> ps[i].inc > 0
  }

  lemma {:induction false} HeadsIncrease(start: int, ps: seq<HeadPush>, i: nat)
    requires Increasing(ps) && 0 < i <= |ps|
    ensures HeadAfter(start, ps[..i]) <= HeadAfter(start, ps)
    ensures i < |ps| ==> HeadAfter(start, ps[..i]) < HeadAfter(start, ps)
  {
    if i < |ps| {
      HeadsIncrease(start, ps[..|ps| - 1], i);
      assert ps[..|ps| - 1][..i] == ps[..i];
    } else {
      assert ps[..i] == ps;
    }
  }

  /**
   After any run of head packets with increasing targets, gaps included, the entries are exactly
   the packets whose target is among the last max numbers.
   */
  lemma {:induction false} EntriesAreTheLast(start: int, ps: seq<HeadPush>, max: nat, i: nat)
    requires Increasing(ps) && i < |ps| && max > 0
    ensures var k := HeadAfter(start, ps[..i + 1]);
            var es := RunEntries(start, ps, max);
            if HeadAfter(start, ps) - max < k then k in es && es[k] == ps[i].meta else k !in es
  {
    var init, last := ps[..|ps| - 1], ps[|ps| - 1];
    HeadsIncrease(start, ps, i + 1);
    if i < |ps| - 1 {
      EntriesAreTheLast(start, init, max, i);
      assert init[..i + 1] == ps[..i + 1];
      assert HeadAfter(start, ps) == HeadAfter(start, init) + last.inc;
    } else {
      assert ps[..i + 1] == ps;
    }
  }

  lemma HeadMoves(step: nat, inc: u16, max: nat)
    requires step < max && inc > 0
    ensures Advance(Advance(step, inc - 1, max), 1, max) == Advance(step, inc, max)
            && Moved(step, Advance(step, inc, max), inc, max)
  {
    assert Advance(Advance(step, inc - 1, max), 0, max) == Advance(step, inc - 1, max);
    AdvanceIsWrap(step, inc - 1, max);
    AdvanceIsWrap(step, inc, max);
    WrapNext(step + inc - 1, max);
    forall d: nat | d + inc < max ensures SlotIndex(Advance(step, inc, max), d + inc, max) == SlotIndex(step, d, max) {
      IndexAfterGap(step, inc - 1, d + inc, max);
    }
  }

  lemma OnlyOneInStep(fillings: seq<Filling>, entries: map<int, PacketMeta>, step: nat, head: int)
    requires step < |fillings| && entries.Keys == {head}
    requires forall j :: 0 <= j < |fillings| ==>
               fillings[j] == if j == SlotIndex(step, 0, |fillings|) then Pushed(head) else Unfilled
    ensures InStep(fillings, entries, step, head) && Below(fillings, head)
  {
    forall d: nat | d < |fillings|
      ensures var f := fillings[SlotIndex(step, d, |fillings|)];
              (f.Pushed? ==> f.number <= head - d) && (head - d in entries <==> f == Pushed(head - d))
    {
      IndexInjective(step, d, 0, |fillings|);
    }
  }

  /** Adding the codec fields to the slot that was filled last concerns the entry of the head only. */
  lemma EditTop(entries: map<int, PacketMeta>, slots: seq<PacketMeta>, fillings: seq<Filling>, step: nat, head: int,
                tlz0Idx: byte, picID: u16)
    requires step < |slots| && Filed(entries, slots, step, head) && Labeled(fillings, slots)
    requires fillings[SlotIndex(step, 0, |slots|)].Pushed?
    ensures var j := SlotIndex(step, 0, |slots|);
            var edited := slots[j := WithVP8Meta(slots[j], tlz0Idx, picID)];
            && Labeled(fillings, edited)
            && Filed(if head in entries then entries[head := WithVP8Meta(entries[head], tlz0Idx, picID)]
               else entries, edited, step, head)
  {
    forall k | k in entries ensures SlotIndex(step, head - k, |slots|) == SlotIndex(step, 0, |slots|) <==> k == head {
      IndexInjective(step, head - k, 0, |slots|);
    }
  }

  lemma SameKeysInStep(fillings: seq<Filling>, a: map<int, PacketMeta>, b: map<int, PacketMeta>, step: nat, head: int)
    requires step < |fillings| && InStep(fillings, a, step, head) && a.Keys == b.Keys
    ensures InStep(fillings, b, step, head)
  {
    forall d: nat | d < |fillings|
      ensures head - d in b <==> fillings[SlotIndex(step, d, |fillings|)] == Pushed(head - d)
    {
      assert head - d in a <==> head - d in b;
      assert (fillings[SlotIndex(step, d, |fillings|)].Pushed? ==>
          fillings[SlotIndex(step, d, |fillings|)].number <= head - d);
    }
  }

  class Sequencer {
    var init: bool
    const max: nat
    const slots: array<PacketMeta>
    var step: nat
    var headSN: u16

    /** The highest target, unwrapped, and the targets of the ring that were pushed, with their metadata. */
    ghost var head: int
    ghost var entries: map<int, PacketMeta>

    /** What each slot was filled with, and whether every number is looked up in its own slot. */
    ghost var fillings: seq<Filling>
    ghost var inStep: bool

    ghost predicate Valid()
      reads this, slots
    {
      && max > 0 && slots.Length == max && step < max
      && (init ==> headSN == Low16(head))
      && (!init ==> entries == map[] && inStep && forall j :: 0 <= j < |fillings| ==> fillings[j].Unfilled?)
      && RingKept(entries, slots[..], fillings, inStep, step, head)
    }

    constructor (maxTrack: nat)
      requires maxTrack > 0
      ensures Valid() && max == maxTrack && !init && fresh(slots) && step == 0
      ensures forall j :: 0 <= j < max ==> slots[j] == PacketMeta(0, 0, 0, 0, 0, 0) && fillings[j].Unfilled?
    {
      max := maxTrack;
      init, step, headSN := false, 0, 0;
      slots := new PacketMeta[maxTrack](_ => ZERO_META);
      head, entries := 0, map[];
      fillings, inStep := seq(maxTrack, _ => Unfilled), true;
    }

    /** The slot that was filled last. */
    ghost function Top(): nat
      requires max > 0 && step < max
      reads this
    {
      SlotIndex(step, 0, max)
    }

    /** The metadata a push stores. */
    function Stored(sn: u16, offSn: u16, timeStamp: u32, layer: byte): PacketMeta {
      PacketMeta(sn, offSn, timeStamp, 0, layer, 0)
    }

    /** The unwrapped target of a head push. */
    ghost function Target(offSn: u16): int
      reads this
    {
      if !init then offSn else head + Sub16(offSn, headSN)
    }

    /** The loop that leaves a slot for every number between the old and the new head. */
    method SkipSlots(inc: u16)
      requires max > 0 && step < max
      modifies this`step
      ensures step == Advance(old(step), if inc > 0 then inc - 1 else 0, max)
    {
      var i := 1;
      while i < inc
        invariant 1 <= i && (i <= inc || i == 1) && step == Advance(old(step), i - 1, max)
      {
        step := step + 1;
        if step >= max {
          step := 0;
        }
        i := i + 1;
      }
    }

    /** Stores at the current slot and moves on. */
    method Place(m: PacketMeta)
      requires max > 0 && slots.Length == max && step < max
      modifies this`step, slots
      ensures step == Advance(old(step), 1, max) && slots[..] == old(slots[..])[old(step) := m]
      ensures Top() == old(step)
    {
      slots[step] := m;
      step := step + 1;
      if step >= max {
        step := 0;
      }
      assert Advance(old(step), 0, max) == old(step);
    }

    /** A head packet: its slot, and the slots between it and the old head, come after the old ones. */
    method PlaceHead(inc: u16, m: PacketMeta)
      requires max > 0 && slots.Length == max && step < max
      modifies this`step, slots
      ensures step == Advance(old(step), if inc > 0 then inc else 1, max) && slots[..] == old(slots[..])[Top() := m]
      ensures inc > 0 ==> Moved(old(step), step, inc, max)
    {
      ghost var from := step;
      SkipSlots(inc);
      Place(m);
      if inc > 0 {
        HeadMoves(from, inc, max);
      } else {
        assert Advance(from, 0, max) == from;
      }
    }

    /**
     Stores the metadata of a packet in the next slot. For a head packet with a new target the
     other entries of the ring stay findable. A late packet that is not too old goes to the next
     slot, too, not to its own, which puts the ring out of step.
     */
    method Push(sn: u16, offSn: u16, timeStamp: u32, layer: byte, isHead: bool) returns (stored: bool)
      requires Valid()
      modifies this, slots
      ensures Valid() && init
      ensures isHead ==> stored && headSN == offSn && head == old(Target(offSn))
      ensures isHead ==>
              step == Advance(old(step), if old(init) && offSn != old(headSN) then Sub16(offSn, old(headSN))
                  else 1, max)
      ensures isHead ==> entries == EntriesAfter(old(entries), if old(init) then old(head) else offSn,
                                                 if old(init) then Sub16(offSn, old(headSN)) else 0,
                                                 Stored(sn, offSn, timeStamp, layer), max)
      ensures isHead && (!old(init) || offSn != old(headSN)) ==> inStep == old(inStep)
      ensures !isHead ==> entries == (if stored then map[] else old(entries)) && (inStep ==> !stored && old(inStep))
      ensures !isHead ==>
              headSN == (if old(init) then old(headSN) else offSn) && head == (if old(init) then old(head) else offSn)
      ensures !isHead ==> (stored <==> Sub16(headSN, offSn) - old(step) < max)
      ensures !isHead && stored ==> step == Advance(old(step), 1, max) && Top() == old(step)
      ensures stored ==> slots[..] == old(slots[..])[Top() := PacketMeta(sn, offSn, timeStamp, 0, layer, 0)]
      ensures stored ==>
              fillings == old(fillings)[Top() := Pushed(if isHead then head else head - Sub16(headSN, offSn))]
      ensures !stored ==> slots[..] == old(slots[..]) && step == old(step) && fillings == old(fillings)
    {
      var m := Stored(sn, offSn, timeStamp, layer);
      if !init {
        if isHead {
          PushFirst(m);
          return true;
        }
        headSN, init := offSn, true;
        head := offSn;
      }
      if isHead {
        PushHead(m, entries);
        stored := true;
      } else {
        stored := PushLate(m);
      }
    }

    /** The very first packet, as head. */
    method PushFirst(m: PacketMeta)
      requires Valid() && !init && m == Plain(m)
      modifies this, slots
      ensures Valid() && init && inStep && headSN == m.targetSeqNo == head && entries == map[head := m]
      ensures step == Advance(old(step), 1, max)
      ensures slots[..] == old(slots[..])[Top() := m] && fillings == old(fillings)[Top() := Pushed(head)]
    {
      headSN, init := m.targetSeqNo, true;
      head := m.targetSeqNo;
      PlaceHead(0, m);
      entries := map[head := m];
      fillings := fillings[Top() := Pushed(head)];
      FirstKeepsRing(old(slots[..]), old(fillings), step, m);
    }

    /** The head branch of Push. */
    method PushHead(m: PacketMeta, ghost was: map<int, PacketMeta>)
      requires Valid() && init && m == Plain(m) && was == entries
      modifies this`step, this`headSN, this`head, this`entries, this`fillings, this`inStep, slots
      ensures Valid() && headSN == m.targetSeqNo && head == old(head) + Sub16(m.targetSeqNo, old(headSN))
      ensures step == Advance(old(step), if m.targetSeqNo != old(headSN) then Sub16(m.targetSeqNo, old(headSN))
              else 1, max)
      ensures slots[..] == old(slots[..])[Top() := m] && fillings == old(fillings)[Top() := Pushed(head)]
      ensures entries == EntriesAfter(was, old(head), Sub16(m.targetSeqNo, old(headSN)), m, max)
      ensures inStep == (old(inStep) && m.targetSeqNo != old(headSN))
    {
      var inc := Sub16(m.targetSeqNo, headSN);
      AheadBits(head, m.targetSeqNo);
      PlaceHead(inc, m);
      HeadKeepsRing(was, old(slots[..]), fillings, inStep, old(step), head, inc, m, step);
      headSN, head := m.targetSeqNo, head + inc;
      entries := EntriesAfter(was, old(head), inc, m, max);
      fillings, inStep := fillings[Top() := Pushed(head)], inStep && inc > 0;
    }

    /** The other branch of Push, which computes a slot and then does not use it. */
    method PushLate(m: PacketMeta) returns (stored: bool)
      requires max > 0 && slots.Length == max && step < max && init && headSN == Low16(head)
      requires RingKept(entries, slots[..], fillings, inStep, step, head)
      modifies this`step, this`entries, this`fillings, this`inStep, slots
      ensures Valid()
      ensures stored <==> Sub16(headSN, m.targetSeqNo) - old(step) < max
      ensures stored ==>
              slots[..] == old(slots[..])[old(step) := m] && step == Advance(old(step), 1, max) && Top() == old(step)
      ensures stored ==> fillings == old(fillings)[Top() := Pushed(head - Sub16(headSN, m.targetSeqNo))]
      ensures entries == (if stored then map[] else old(entries)) && inStep == (!stored && old(inStep))
      ensures !stored ==> slots[..] == old(slots[..]) && step == old(step) && fillings == old(fillings)
    {
      var s := step - Sub16(headSN, m.targetSeqNo);
      if s < 0 && -s >= max {
        return false;
      }
      BehindBits(head, m.targetSeqNo);
      Place(m);
      entries, inStep := map[], false;
      fillings := fillings[Top() := Pushed(head - Sub16(headSN, m.targetSeqNo))];
      stored := true;
    }

    /** The down track adds the VP8 fields to the metadata it has just pushed. */
    method SetVP8PayloadMeta(tlz0Idx: byte, picID: u16)
      requires Valid() && init && fillings[Top()].Pushed?
      modifies slots, this`entries
      ensures Valid()
      ensures slots[..] == old(slots[..])[Top() := WithVP8Meta(old(slots[Top()]), tlz0Idx, picID)]
      ensures entries.Keys == old(entries).Keys
      ensures entries
              == if head in old(entries) then old(entries)[head := WithVP8Meta(old(entries)[head], tlz0Idx, picID)]
                         else old(entries)
    {
      ghost var was := slots[..];
      slots[SlotIndex(step, 0, max)] := WithVP8Meta(slots[SlotIndex(step, 0, max)], tlz0Idx, picID);
      EditTop(entries, was, fillings, step, head, tlz0Idx, picID);
      if head in entries {
        entries := entries[head := WithVP8Meta(entries[head], tlz0Idx, picID)];
      }
      if inStep {
        SameKeysInStep(fillings, old(entries), entries, step, head);
      }
    }

    /** Answers a request for retransmission at a time in milliseconds since the sequencer started. */
    method GetSeqNoPairs(seqNo: seq<u16>, refTime: u32) returns (meta: seq<PacketMeta>)
      requires Valid()
      modifies slots
      ensures Valid()
      ensures var r := Ask(old(slots[..]), step, headSN, seqNo, refTime);
              meta == r.metas && slots[..] == r.slots
    {
      meta := [];
      ghost var before := slots[..];
      for i := 0 to |seqNo|
        invariant Ask(before, step, headSN, seqNo[..i], refTime) == Answer(slots[..], meta)
      {
        var sn := seqNo[i];
        assert seqNo[..i + 1][..i] == seqNo[..i];
        var s := step - Sub16(headSN, sn) - 1;
        if s < 0 {
          if -s >= max {
            continue;
          }
          s := max + s;
        }
        var m := slots[s];
        if m.targetSeqNo == sn {
          if m.lastNack == 0 || Sub32(refTime, m.lastNack) > IGNORE_RETRANSMISSION {
            slots[s] := m.(lastNack := refTime);
            meta := meta + [slots[s]];
          }
        }
      }
      assert seqNo[..|seqNo|] == seqNo;
      AskKeepsEntries(before, step, headSN, seqNo, refTime);
    }

    /** A target among the last max - 1 numbers is looked up in the slot of its entry. */
    lemma LookedUp(k: int)
      requires Valid() && init && k in entries && head - k < max - 1 && head - k < 0x1_0000
      ensures LooksIn(step, headSN, Low16(k), max, SlotIndex(step, head - k, max))
      ensures Plain(slots[SlotIndex(step, head - k, max)]) == entries[k]
    {
      FindableIff(step, head - k, max);
      DistanceBelow(head, head - k);
    }
  }

  lemma DistanceBelow(head: int, d: nat)
    requires d < 0x1_0000
    ensures Sub16(Low16(head), Low16(head - d)) == d
  {
    Low16Sum(head, d);
  }

  /**
   Completeness: a pushed target among the last max - 1 numbers is found, with its own source
   number, timestamp, layer and codec fields, unless it was sent again within the last 100 ms.
   */
  lemma RequestFindsEntry(s: Sequencer, seqNo: seq<u16>, refTime: u32, k: int)
    requires s.Valid() && s.init && k in s.entries && s.head - k < s.max - 1 && s.head - k < 0x1_0000
    requires Low16(k) in seqNo
    requires var m := s.slots[SlotIndex(s.step, s.head - k, s.max)];
             m.lastNack == 0 || Sub32(refTime, m.lastNack) > 100
    ensures s.entries[k].(lastNack := refTime) in Ask(s.slots[..], s.step, s.headSN, seqNo, refTime).metas
  {
    s.LookedUp(k);
    AskFinds(s.slots[..], s.step, s.headSN, seqNo, refTime, Low16(k), SlotIndex(s.step, s.head - k, s.max));
  }

  /**
   A late packet puts the ring out of step: the slot in which the head is looked up is then the
   late packet's, so a request for the head, which was findable before, gets nothing.
   */
  lemma LatePushHidesHead(slots: seq<PacketMeta>, step: nat, headSN: u16, late: PacketMeta, refTime: u32)
    requires step < |slots| && late.targetSeqNo != headSN
    ensures Advance(step, 1, |slots|) < |slots|
    ensures Ask(slots[step := late], Advance(step, 1, |slots|), headSN, [headSN], refTime).metas == []
  {
    var after, next := slots[step := late], Advance(step, 1, |slots|);
    assert Advance(step, 0, |slots|) == step;
    assert [headSN][..0] == [];
    assert LookupIndex(next, 0, |slots|) == step || LookupIndex(next, 0, |slots|) < 0;
    assert Ask(after, next, headSN, [], refTime) == Answer(after, []);
  }

  /** After a late packet, every number is looked up in the slot of the number above it. */
  lemma LatePushShiftsLookups(step: nat, d: nat, max: nat)
    requires step < max && 0 < d && d + 1 < max
    ensures LookupIndex(Advance(step, 1, max), d, max) == SlotIndex(step, d - 1, max)
  {
    HeadMoves(step, 1, max);
    assert SlotIndex(Advance(step, 1, max), d - 1 + 1, max) == SlotIndex(step, d - 1, max);
    FindableIff(Advance(step, 1, max), d, max);
  }

  /**
   So a request for any number below the head of a ring of more than two slots is answered by the
   slot of the number above it, or not at all.
   */
  lemma AfterLatePushIff(s: Sequencer, late: PacketMeta, refTime: u32, k: int)
    requires s.Valid() && s.init && 0 < s.head - k < s.max - 1 && s.head - k < 0x1_0000
    ensures Advance(s.step, 1, s.max) < s.max
    ensures var above := s.slots[SlotIndex(s.step, s.head - (k + 1), s.max)];
            Ask(s.slots[..][s.step := late], Advance(s.step, 1, s.max), s.headSN, [Low16(k)], refTime).metas
            == if Answers(above, Low16(k), refTime) then [above.(lastNack := refTime)] else []
  {
    var after, next, d := s.slots[..][s.step := late], Advance(s.step, 1, s.max), s.head - k;
    DistanceBelow(s.head, d);
    LatePushShiftsLookups(s.step, d, s.max);
    NotTheNext(s.step, d - 1, s.max);
    assert [Low16(k)][..0] == [];
    assert Ask(after, next, s.headSN, [], refTime) == Answer(after, []);
  }

  /** A pushed number below another pushed one, which was findable before, gets nothing. */
  lemma LatePushHidesBelow(s: Sequencer, late: PacketMeta, refTime: u32, k: int)
    requires s.Valid() && s.init && k in s.entries && k + 1 in s.entries && 0 < s.head - k < s.max - 1
             && s.head - k < 0x1_0000
    ensures Advance(s.step, 1, s.max) < s.max
    ensures Ask(s.slots[..][s.step := late], Advance(s.step, 1, s.max), s.headSN, [Low16(k)], refTime).metas == []
  {
    AfterLatePushIff(s, late, refTime, k);
    Low16Injective(k, 1);
    assert Plain(s.slots[SlotIndex(s.step, s.head - (k + 1), s.max)]) == s.entries[k + 1];
  }

  lemma NotTheNext(step: nat, d: nat, max: nat)
    requires step < max && d + 1 < max
    ensures SlotIndex(step, d, max) != step
  {}

  /** After targets 10 and 12, the late 11 goes to the slot after 12, and then neither 11 nor 12 is found. */
  method LatePushHidesEntries(refTime: u32) returns (found: seq<PacketMeta>)
    ensures found == []
  {
    var s := TenTwelveAndLateEleven();
    ghost var slots := s.slots[..];
    ghost var both: seq<u16> := [11, 12];
    assert both[..1] == [11] && [11 as u16][..0] == [];
    assert Ask(slots, s.step, 12, [], refTime) == Answer(slots, []);
    assert Ask(slots, s.step, 12, [11], refTime) == Answer(slots, []);
    found := s.GetSeqNoPairs([11, 12], refTime);
  }

  method TenTwelveAndLateEleven() returns (s: Sequencer)
    ensures fresh(s) && fresh(s.slots) && s.Valid() && s.init && s.max == 5 && s.step == 4 && s.headSN == 12
    ensures s.slots[2].targetSeqNo == 12 && s.slots[3].targetSeqNo == 11
  {
    s := TenAndTwelve();
    ghost var before := s.slots[..];
    assert Advance(3, 0, 5) == 3 && Advance(3, 1, 5) == 4;
    var c := s.Push(11, 11, 0, 0, false);
    assert s.slots[..][2] == before[2];
  }

  method TenAndTwelve() returns (s: Sequencer)
    ensures fresh(s) && fresh(s.slots) && s.Valid() && s.init && s.max == 5 && s.step == 3 && s.headSN == 12
    ensures s.slots[2].targetSeqNo == 12
  {
    s := Ten();
    AdvanceIsWrap(1, 2, 5);
    var b := s.Push(12, 12, 0, 0, true);
    assert s.slots[..][s.Top()].targetSeqNo == 12;
  }

  method Ten() returns (s: Sequencer)
    ensures fresh(s) && fresh(s.slots) && s.Valid() && s.init && s.max == 5 && s.step == 1 && s.headSN == 10
  {
    s := new Sequencer(5);
    AdvanceIsWrap(0, 1, 5);
    var a := s.Push(10, 10, 0, 0, true);
  }

  // ---------------------------------------------------------------- nothing but what was pushed

  /** Whatever a request gets is what the slot of one of its numbers holds, and shows that number. */
  lemma {:induction false} AskGivesSlots(slots: seq<PacketMeta>, step: nat, headSN: u16, sns: seq<u16>, refTime: u32,
                                         m: PacketMeta)
      returns (j: nat)
    requires step < |slots| && m in Ask(slots, step, headSN, sns, refTime).metas
    ensures m.targetSeqNo in sns && LooksIn(step, headSN, m.targetSeqNo, |slots|, j) && Plain(slots[j]) == Plain(m)
  {
    var init, x := sns[..|sns| - 1], sns[|sns| - 1];
    var before := Ask(slots, step, headSN, init, refTime);
    AskKeepsEntries(slots, step, headSN, init, refTime);
    if m in before.metas {
      j := AskGivesSlots(slots, step, headSN, init, refTime, m);
    } else {
      j := LookupIndex(step, Sub16(headSN, x), |slots|);
      assert Plain(before.slots[j]) == Plain(slots[j]);
    }
  }

  lemma {:induction false} AskAllGivesSlots(slots: seq<PacketMeta>, step: nat, headSN: u16, requests: seq<seq<u16>>,
                                            times: seq<u32>,
                                            m: PacketMeta) returns (i: nat, j: nat)
    requires step < |slots| && |requests| == |times| && m in AskAll(slots, step, headSN, requests, times).metas
    ensures i < |requests| && m.targetSeqNo in requests[i]
    ensures LooksIn(step, headSN, m.targetSeqNo, |slots|, j) && Plain(slots[j]) == Plain(m)
  {
    var n := |requests| - 1;
    var before := AskAll(slots, step, headSN, requests[..n], times[..n]);
    AskAllKeepsEntries(slots, step, headSN, requests[..n], times[..n]);
    if m in before.metas {
      i, j := AskAllGivesSlots(slots, step, headSN, requests[..n], times[..n], m);
    } else {
      i := n;
      j := AskGivesSlots(before.slots, step, headSN, requests[n], times[n], m);
      assert Plain(before.slots[j]) == Plain(slots[j]);
    }
  }

  lemma {:induction false} AskAllKeepsEntries(slots: seq<PacketMeta>, step: nat, headSN: u16, requests: seq<seq<u16>>,
                                              times: seq<u32>)
    requires step < |slots| && |requests| == |times|
    ensures forall j :: 0 <= j < |slots| ==>
            Plain(AskAll(slots, step, headSN, requests, times).slots[j]) == Plain(slots[j])
  {
    if requests != [] {
      var n := |requests| - 1;
      var before := AskAll(slots, step, headSN, requests[..n], times[..n]);
      AskAllKeepsEntries(slots, step, headSN, requests[..n], times[..n]);
      AskKeepsEntries(before.slots, step, headSN, requests[n], times[n]);
      forall j | 0 <= j < |slots|
        ensures Plain(AskAll(slots, step, headSN, requests, times).slots[j]) == Plain(slots[j])
      {
        assert Plain(before.slots[j]) == Plain(slots[j]);
      }
    }
  }

  /** The number of the window that a request means. */
  function Meant(head: int, headSN: u16, sn: u16): int {
    head - Sub16(headSN, sn)
  }

  /**
   Soundness, for a ring in step: a request within the window is answered with a packet that was
   not pushed under the number it means exactly when the slot was never filled and the number is
   0, or the slot is left over from whole cycles of 2^16 before.
   */
  lemma StrangerAnswersIff(s: Sequencer, sn: u16)
    requires s.Valid() && s.init && s.inStep && Sub16(s.headSN, sn) < s.max - 1
    ensures var k := Meant(s.head, s.headSN, sn);
            var j := SlotIndex(s.step, Sub16(s.headSN, sn), s.max);
            && LooksIn(s.step, s.headSN, sn, s.max, j) && Low16(k) == sn
            && ((s.slots[j].targetSeqNo == sn && k !in s.entries) <==>
                ((s.fillings[j].Unfilled? && sn == 0)
                 || (s.fillings[j].Pushed? && s.fillings[j].number < k && Low16(s.fillings[j].number) == sn)))
            && (k in s.entries ==> Plain(s.slots[j]) == s.entries[k])
  {
    var d := Sub16(s.headSN, sn);
    FindableIff(s.step, d, s.max);
    BehindBits(s.head, sn);
    StrangerIff(s.fillings, s.entries, s.slots[..], s.step, s.head, s.head - d);
  }
}
