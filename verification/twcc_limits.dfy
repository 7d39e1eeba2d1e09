/**
 How large a transport-wide congestion control report can get: the responder writes it into
 arrays of 100 and 200 bytes without checking, and this is when it fits.
 */
module TwccLimits {
  import opened Words
  import opened TwccChunks
  import opened TwccEncoder
  import opened TwccDeltas
  import opened TwccReports
  import opened TwccFeedback

  const PAYLOAD_SIZE := 100
  const DELTAS_SIZE := 200

  function ReportChunks(pkts: seq<Arrival>): seq<Chunk> {
    Finish(Encode(RunPass(pkts).sts))
  }

  predicate ChunksFit(pkts: seq<Arrival>) {
    HEADER_SIZE + 2 * |ReportChunks(pkts)| <= PAYLOAD_SIZE
  }

  predicate DeltasFit(pkts: seq<Arrival>) {
    |RunPass(pkts).deltas| <= DELTAS_SIZE
  }

  /** The report's chunks and deltas fit the arrays of the responder; otherwise the Go code panics. */
  predicate FitsArrays(pkts: seq<Arrival>) {
    ChunksFit(pkts) && DeltasFit(pkts)
  }

  /** 100 bytes of payload: 16 of header and two a chunk; and 200 bytes of deltas. */
  lemma FitsArraysIff(pkts: seq<Arrival>)
    ensures FitsArrays(pkts) <==> |ReportChunks(pkts)| <= 42 && |RunPass(pkts).deltas| <= 200
  {}

  /** The packets of the report over some pending arrivals. */
  function NextPackets(pending: seq<Arrival>, last: u32): seq<Arrival> {
    Collection(Sorting(pending), last).pkts
  }

  // ---------------------------------------------------------------- chunks of a gap

  /** The encoder after some more statuses. */
  function EncodeFrom(e: Encoder, sts: seq<Symbol>): Encoder {
    if sts == [] then e else Step(EncodeFrom(e, sts[..|sts| - 1]), sts[|sts| - 1])
  }

  /** With the step as a parameter, so that its definition plays no part. */
  function Fold(step: (Encoder, Symbol) -> Encoder, e: Encoder, sts: seq<Symbol>): Encoder {
    if sts == [] then e else step(Fold(step, e, sts[..|sts| - 1]), sts[|sts| - 1])
  }

  lemma {:induction false} FoldSplits(step: (Encoder, Symbol) -> Encoder, e: Encoder, a: seq<Symbol>, b: seq<Symbol>)
    ensures Fold(step, e, a + b) == Fold(step, Fold(step, e, a), b)
  {
    if b == [] {
      assert a + b == a;
    } else {
      var n := |b| - 1;
      FoldSplits(step, e, a, b[..n]);
      assert (a + b)[..|a| + n] == a + b[..n];
    }
  }

  lemma {:induction false} EncodeIsFold(e: Encoder, sts: seq<Symbol>)
    ensures EncodeFrom(e, sts) == Fold(Step, e, sts) && Encode(sts) == Fold(Step, START, sts)
  {
    if sts != [] {
      EncodeIsFold(e, sts[..|sts| - 1]);
    }
  }

  lemma EncodeSplits(a: seq<Symbol>, b: seq<Symbol>)
    ensures Encode(a + b) == EncodeFrom(Encode(a), b)
  {
    EncodeIsFold(START, a);
    EncodeIsFold(Encode(a), b);
    EncodeIsFold(START, a + b);
    FoldSplits(Step, START, a, b);
  }

  /** A run of "not received" can begin here, or goes on. */
  predicate Calm(e: Encoder) {
    e.same && (e.pending == [] || e.last == NOT_RECEIVED)
  }

  /** A "not received" status makes no chunk within such a run, and otherwise at most the one before it. */
  lemma StepOfLoss(e: Encoder)
    requires Inv(e)
    ensures var f := Step(e, NOT_RECEIVED);
            && Inv(f) && (Calm(e) ==> Calm(f) && f.chunks == e.chunks)
            && (|f.chunks| == |e.chunks| || (|f.chunks| == |e.chunks| + 1 && Calm(f)))
  {
    StepInv(e, NOT_RECEIVED);
    var a := Append(CloseRun(e, NOT_RECEIVED), NOT_RECEIVED);
    if !a.same && a.max == LARGE_DELTA && |a.pending| > 6 {
      var f := a.(chunks := a.chunks + [VectorChunk(TWO_BIT, a.pending[..7])], pending := a.pending[7..]);
      RescanKeeps(f, |f.pending|);
      RescanOfFew(f);
    }
  }

  /** At most one status is left after the flush, and it is "not received". */
  lemma RescanOfFew(f: Encoder)
    requires |f.pending| <= 1 && (f.pending != [] ==> f.pending[0] == NOT_RECEIVED)
    ensures Calm(Rescan(f, |f.pending|))
  {
    if f.pending != [] {
      assert Rescan(f, 0).same && Rescan(f, 0).last == WITHOUT_DELTA;
    }
  }

  /** However long a gap is, it makes at most one chunk. */
  lemma {:induction false} GapMakesOneChunk(e: Encoder, gap: seq<Symbol>)
    requires Inv(e) && forall i :: 0 <= i < |gap| ==> gap[i] == NOT_RECEIVED
    ensures var f := EncodeFrom(e, gap);
            && Inv(f) && |f.chunks| <= |e.chunks| + 1
            && (|f.chunks| > |e.chunks| || Calm(e) ==> Calm(f)) && (Calm(e) ==> f.chunks == e.chunks)
  {
    if gap != [] {
      GapMakesOneChunk(e, gap[..|gap| - 1]);
      StepOfLoss(EncodeFrom(e, gap[..|gap| - 1]));
    }
  }

  lemma StepMakesTwoChunks(e: Encoder, s: Symbol)
    ensures |Step(e, s).chunks| <= |e.chunks| + 2
  {
    var a := Append(CloseRun(e, s), s);
    if !a.same && a.max == LARGE_DELTA && |a.pending| > 6 {
      RescanKeeps(a.(chunks := a.chunks + [VectorChunk(TWO_BIT, a.pending[..7])], pending := a.pending[7..]),
                  |a.pending| - 7);
    }
  }

  /** Some statuses, a gap of whatever length, and one more status. */
  lemma ChunksOfGap(front: seq<Symbol>, gap: seq<Symbol>, s: Symbol)
    requires Known(front) && s != WITHOUT_DELTA && forall i :: 0 <= i < |gap| ==> gap[i] == NOT_RECEIVED
    ensures 7 * |Finish(Encode(front + gap + [s]))| <= |front| + 28
  {
    EncodeInv(front);
    ChunkCount(front);
    EncodeSplits(front, gap);
    GapMakesOneChunk(Encode(front), gap);
    assert (front + gap + [s])[..|front + gap|] == front + gap;
    StepMakesTwoChunks(Encode(front + gap), s);
  }

  // ---------------------------------------------------------------- chunks of a report

  ghost predicate Lost(gap: seq<Arrival>) {
    forall i :: 0 <= i < |gap| ==> gap[i].timestamp == 0
  }

  lemma {:induction false} GapIsLost(lo: u32, hi: u32)
    ensures Lost(Gap(lo, hi))
    decreases hi
  {
    if lo < hi {
      GapIsLost(lo, hi - 1);
    }
  }

  /** A collection is less than its limit, then the gap before the last record, and this record. */
  lemma {:induction false} CollectShape(infos: seq<Arrival>, c: Collected, limit: nat)
      returns (front: seq<Arrival>, gap: seq<Arrival>, a: Arrival)
    requires |c.pkts| < limit
    ensures var d := Collect(infos, c, limit);
            d == c || (d.pkts == front + gap + [a] && |front| < limit && Lost(gap) && a in infos)
  {
    front, gap, a := [], [], Arrival(0, 0);
    if infos != [] {
      if infos[0].extTSN < c.last {
        front, gap, a := CollectShape(infos[1..], c, limit);
      } else {
        var d := Take(c, infos[0]);
        var g := if c.last != 0 then Gap(Add32(c.last, 1), infos[0].extTSN) else [];
        GapIsLost(Add32(c.last, 1), infos[0].extTSN);
        if |d.pkts| < limit {
          front, gap, a := CollectShape(infos[1..], d, limit);
        }
        if |d.pkts| >= limit || Collect(infos, c, limit) == d {
          front, gap, a := c.pkts, g, infos[0];
        }
      }
    }
  }

  /** Statuses of a list of packets, and those of "not received" entries behind it. */
  lemma {:induction false} LostStatuses(front: seq<Arrival>, gap: seq<Arrival>)
    requires Lost(gap)
    ensures var sts := RunPass(front + gap).sts;
            && |sts| == |front| + |gap| && sts[..|front|] == RunPass(front).sts
            && forall i :: |front| <= i < |sts| ==> sts[i] == NOT_RECEIVED
  {
    PassStatuses(front);
    if gap == [] {
      assert front + gap == front;
    } else {
      var n := |gap| - 1;
      LostStatuses(front, gap[..n]);
      assert (front + gap)[..|front| + n] == front + gap[..n];
    }
  }

  /** With up to 222 pending records, however large the gaps between them, the chunks fit. */
  lemma ReportChunksFit(sorted: seq<Arrival>, last: u32)
    requires |sorted| <= 222
    ensures ChunksFit(Collection(sorted, last).pkts)
  {
    var pkts := Collection(sorted, last).pkts;
    if sorted != [] && pkts != [] {
      var front, gap, a := CollectShape(sorted, Collected([], last, 0), Limit(|sorted|));
      ShapedChunks(front, gap, a);
    }
  }

  lemma ShapedChunks(front: seq<Arrival>, gap: seq<Arrival>, a: Arrival)
    requires Lost(gap)
    ensures 7 * |ReportChunks(front + gap + [a])| <= |front| + 28
  {
    var pkts := front + gap + [a];
    var sts := RunPass(pkts).sts;
    PassStatuses(front);
    PassStatuses(pkts);
    LostStatuses(front, gap);
    assert pkts[..|front + gap|] == front + gap;
    var f, g := sts[..|front|], sts[|front|..|front| + |gap|];
    assert RunPass(front + gap).sts == sts[..|front| + |gap|];
    assert f == RunPass(front).sts;
    assert sts == f + g + [sts[|sts| - 1]];
    ChunksOfGap(f, g, sts[|sts| - 1]);
  }

  // ---------------------------------------------------------------- deltas of a report

  ghost predicate AfterEpoch(pkts: seq<Arrival>) {
    forall i :: 0 <= i < |pkts| ==> pkts[i].timestamp >= 0
  }

  /** The first delta counts from the reference time and is always small. */
  lemma {:induction false} DeltaAreaBound(pkts: seq<Arrival>)
    requires AfterEpoch(pkts)
    ensures RunPass(pkts).firstRecv ==> Received(pkts) > 0 && |RunPass(pkts).deltas| <= 2 * Received(pkts) - 1
    ensures !RunPass(pkts).firstRecv ==> Received(pkts) == 0 && RunPass(pkts).deltas == []
  {
    if pkts != [] {
      DeltaAreaBound(pkts[..|pkts| - 1]);
      var p, ts := RunPass(pkts[..|pkts| - 1]), pkts[|pkts| - 1].timestamp;
      if ts != 0 && !p.firstRecv {
        FirstDeltaIsSmall(p, ts);
      }
    }
  }

  lemma FirstDeltaIsSmall(p: Pass, ts: int)
    requires ts > 0 && !p.firstRecv
    ensures 0 <= DeltaFrom(p, ts) <= 255
  {
    GoDivTruncates(ts, REFERENCE_UNIT);
    GoDivTruncates(ts - GoDiv(ts, REFERENCE_UNIT) * REFERENCE_UNIT, TICK);
  }

  lemma {:induction false} ReceivedIsTaken(pkts: seq<Arrival>)
    ensures Received(pkts) == |Taken(pkts)|
  {
    if pkts != [] {
      ReceivedIsTaken(pkts[..|pkts| - 1]);
    }
  }

  /** A collection takes each record at most once. */
  lemma {:induction false} CollectReceives(infos: seq<Arrival>, c: Collected, limit: nat)
    requires AfterEpoch(infos) && AfterEpoch(c.pkts)
    ensures var d := Collect(infos, c, limit);
            AfterEpoch(d.pkts) && |Taken(d.pkts)| <= |Taken(c.pkts)| + |infos|
  {
    if infos != [] {
      if infos[0].extTSN < c.last {
        CollectReceives(infos[1..], c, limit);
      } else {
        TakeReceives(c, infos[0]);
        CollectReceives(infos[1..], Take(c, infos[0]), limit);
      }
    }
  }

  lemma TakeReceives(c: Collected, a: Arrival)
    requires AfterEpoch(c.pkts) && a.timestamp >= 0
    ensures AfterEpoch(Take(c, a).pkts) && |Taken(Take(c, a).pkts)| <= |Taken(c.pkts)| + 1
  {
    var gap := if c.last != 0 then Gap(Add32(c.last, 1), a.extTSN) else [];
    GapIsLost(Add32(c.last, 1), a.extTSN);
    GapTakesNothing(Add32(c.last, 1), a.extTSN);
    TakenConcat(c.pkts + gap, [a]);
    TakenConcat(c.pkts, gap);
    TakenOfOne(a);
  }

  lemma TakenOfOne(a: Arrival)
    ensures |Taken([a])| <= 1
  {
    assert [a][..0] == [];
  }

  lemma PendingIsSorted(pending: seq<Arrival>)
    requires AfterEpoch(pending)
    ensures AfterEpoch(Sorting(pending)) && |Sorting(pending)| == |pending|
  {
    SortingSorts(pending);
    assert |multiset(Sorting(pending))| == |multiset(pending)|;
    forall i | 0 <= i < |Sorting(pending)| ensures Sorting(pending)[i].timestamp >= 0 {
      assert Sorting(pending)[i] in multiset(pending);
    }
  }

  /** With up to 100 pending records, whatever their numbers, gaps and times, a report always fits the arrays. */
  lemma HundredFit(pending: seq<Arrival>, last: u32)
    requires |pending| <= 100 && AfterEpoch(pending)
    ensures FitsArrays(NextPackets(pending, last))
  {
    var sorted := Sorting(pending);
    PendingIsSorted(pending);
    ReportChunksFit(sorted, last);
    CollectReceives(sorted, Collected([], last, 0), Limit(|sorted|));
    var pkts := Collection(sorted, last).pkts;
    ReceivedIsTaken(pkts);
    DeltaAreaBound(pkts);
  }

  /**
   With the 101st record, which always makes a report due, and up to 222, it fits exactly when its
   deltas take at most 200 bytes.
   */
  lemma MoreFitIff(pending: seq<Arrival>, last: u32)
    requires |pending| <= 222 && AfterEpoch(pending)
    ensures FitsArrays(NextPackets(pending, last)) <==> DeltasFit(NextPackets(pending, last))
  {
    PendingIsSorted(pending);
    ReportChunksFit(Sorting(pending), last);
  }

  // ---------------------------------------------------------------- the 101st record

  /** Lost packets play no part in the deltas. */
  ghost predicate SameDeltas(p: Pass, q: Pass) {
    p.firstRecv == q.firstRecv && p.timestamp == q.timestamp && p.deltas == q.deltas
  }

  lemma {:induction false} DeltasOfTaken(pkts: seq<Arrival>)
    ensures SameDeltas(RunPass(pkts), RunPass(Taken(pkts)))
  {
    if pkts != [] {
      var init, a := pkts[..|pkts| - 1], pkts[|pkts| - 1];
      DeltasOfTaken(init);
      if a.timestamp != 0 {
        assert Taken(pkts)[..|Taken(init)|] == Taken(init);
      } else {
        assert Taken(pkts) == Taken(init);
      }
    }
  }

  /** The time between two arrivals is not one that a single byte can say: 0 to 255 ticks of 250us, truncated. */
  predicate LargeStep(before: Arrival, a: Arrival) {
    var d := a.timestamp - before.timestamp;
    d <= -TICK || d >= 256 * TICK
  }

  /** The first arrival of a report takes one byte, every other one or two. */
  function StepBytes(s: seq<Arrival>): nat {
    if |s| <= 1 then |s| else StepBytes(s[..|s| - 1]) + if LargeStep(s[|s| - 2], s[|s| - 1]) then 2 else 1
  }

  lemma StepWidth(d: int)
    ensures |DeltaBytes(GoDiv(d, TICK))| == if d <= -TICK || d >= 256 * TICK then 2 else 1
  {
    GoDivTruncates(d, TICK);
  }

  lemma {:induction false} StepBytesAreDeltas(s: seq<Arrival>)
    requires forall i :: 0 <= i < |s| ==> s[i].timestamp > 0
    ensures |RunPass(s).deltas| == StepBytes(s) && (RunPass(s).firstRecv <==> s != [])
    ensures s != [] ==> RunPass(s).timestamp == s[|s| - 1].timestamp
  {
    if s != [] {
      var init, a := s[..|s| - 1], s[|s| - 1];
      StepBytesAreDeltas(init);
      var p := RunPass(init);
      if init == [] {
        FirstDeltaIsSmall(p, a.timestamp);
      } else {
        StepWidth(a.timestamp - init[|init| - 1].timestamp);
      }
    }
  }

  predicate LargeAt(s: seq<Arrival>, i: nat)
    requires 0 < i < |s|
  {
    LargeStep(s[i - 1], s[i])
  }

  ghost predicate AllLarge(s: seq<Arrival>) {
    forall i :: 0 < i < |s| ==> LargeAt(s, i)
  }

  lemma {:induction false} StepBytesBound(s: seq<Arrival>)
    requires s != []
    ensures StepBytes(s) <= 2 * |s| - 1 && (StepBytes(s) == 2 * |s| - 1 <==> AllLarge(s))
  {
    var n := |s| - 1;
    if n > 0 {
      StepBytesBound(s[..n]);
      assert forall i :: 0 < i < n ==> LargeAt(s[..n], i) == LargeAt(s, i);
      assert LargeAt(s, n) == LargeStep(s[n - 1], s[n]);
    }
  }

  /** Every record with a time, and those that are not late. */
  lemma TakenIsSlice(sorted: seq<Arrival>, last: u32) returns (late: nat)
    requires Sorted(sorted) && AllReceived(sorted)
    ensures var k := Collection(sorted, last).consumed;
            late + k <= |sorted| && Taken(Collection(sorted, last).pkts) == sorted[late..late + k]
  {
    late := LateCount(sorted, last);
    var c := Collected([], last, 0);
    CollectSkipsLate(sorted, late, c, Limit(|sorted|));
    CollectTakesPrefix(sorted[late..], c, Limit(|sorted|));
  }

  lemma {:induction false} LateCount(sorted: seq<Arrival>, last: u32) returns (late: nat)
    requires Sorted(sorted)
    ensures late <= |sorted| && forall i :: 0 <= i < |sorted| ==> (sorted[i].extTSN < last <==> i < late)
  {
    if sorted == [] || sorted[0].extTSN >= last {
      late := 0;
    } else {
      var rest := LateCount(sorted[1..], last);
      late := rest + 1;
      assert forall i :: 0 < i < |sorted| ==> sorted[i] == sorted[1..][i - 1];
    }
  }

  lemma SliceBytes(pkts: seq<Arrival>, taken: seq<Arrival>)
    requires Taken(pkts) == taken && forall i :: 0 <= i < |taken| ==> taken[i].timestamp > 0
    ensures |RunPass(pkts).deltas| == StepBytes(taken)
    ensures taken != [] ==>
            StepBytes(taken) <= 2 * |taken| - 1 && (StepBytes(taken) == 2 * |taken| - 1 <==> AllLarge(taken))
  {
    DeltasOfTaken(pkts);
    StepBytesAreDeltas(taken);
    if taken != [] {
      StepBytesBound(taken);
    }
  }

  /** The deltas of a report take two bytes a record, less one, exactly when it takes them all with large steps. */
  lemma ReportBytes(sorted: seq<Arrival>, last: u32)
    requires sorted != [] && Sorted(sorted) && forall i :: 0 <= i < |sorted| ==> sorted[i].timestamp > 0
    ensures var bytes := |RunPass(Collection(sorted, last).pkts).deltas|;
            && bytes <= 2 * |sorted| - 1
            && (bytes == 2 * |sorted| - 1 <==> Collection(sorted, last).consumed == |sorted| && AllLarge(sorted))
  {
    var late := TakenIsSlice(sorted, last);
    var k := Collection(sorted, last).consumed;
    var taken := sorted[late..late + k];
    SliceBytes(Collection(sorted, last).pkts, taken);
    if k == |sorted| {
      assert taken == sorted;
    }
  }

  /**
   The report that the 101st record makes due overflows exactly when it takes all 101 of them and,
   in the order of their numbers, no arrival is 0 to 255 ticks after the one before it.
   */
  lemma HundredAndOneIff(pending: seq<Arrival>, last: u32)
    requires |pending| == 101 && AfterEpoch(pending) && AllReceived(pending)
    ensures !FitsArrays(NextPackets(pending, last)) <==>
            Collection(Sorting(pending), last).consumed == 101 && AllLarge(Sorting(pending))
  {
    MoreFitIff(pending, last);
    SortedTimes(pending);
    ReportBytes(Sorting(pending), last);
  }

  lemma SortedTimes(pending: seq<Arrival>)
    requires AfterEpoch(pending) && AllReceived(pending)
    ensures var s := Sorting(pending); |s| == |pending| && Sorted(s) && forall i :: 0 <= i < |s| ==> s[i].timestamp > 0
  {
    PendingIsSorted(pending);
    SortingSorts(pending);
    forall i | 0 <= i < |Sorting(pending)| ensures Sorting(pending)[i].timestamp > 0 {
      assert Sorting(pending)[i] in multiset(pending);
    }
  }

  /** How many packets a collection has after a record: all numbers since the last one reported, or since the first. */
  function Span(sorted: seq<Arrival>, last: u32, i: nat): int
    requires i < |sorted|
  {
    sorted[i].extTSN - (if last != 0 then last else sorted[0].extTSN - 1)
  }

  lemma {:induction false} GapLength(lo: u32, hi: u32)
    ensures |Gap(lo, hi)| == if lo < hi then hi - lo else 0
    decreases hi
  {
    if lo < hi {
      GapLength(lo, hi - 1);
    }
  }

  lemma {:induction false} TakesRestIff(infos: seq<Arrival>, c: Collected, limit: nat)
    requires infos != [] && Sorted(infos) && Distinct(infos) && 0 < c.last < infos[0].extTSN
    ensures Collect(infos, c, limit).consumed == c.consumed + |infos| <==>
            |infos| == 1 || |c.pkts| + infos[|infos| - 2].extTSN - c.last < limit
  {
    var d := Take(c, infos[0]);
    GapLength(Add32(c.last, 1), infos[0].extTSN);
    assert |d.pkts| == |c.pkts| + infos[0].extTSN - c.last;
    if |infos| > 1 && |d.pkts| < limit {
      TakesRestIff(infos[1..], d, limit);
    }
  }

  /** New and distinct records are all taken exactly when the limit is not reached before the last of them. */
  lemma AllTakenIff(sorted: seq<Arrival>, last: u32)
    requires |sorted| >= 2 && Sorted(sorted) && Distinct(sorted) && last < sorted[0].extTSN
    ensures Collection(sorted, last).consumed == |sorted| <==>
            5 * (Span(sorted, last, |sorted| - 2) + 1) <= 6 * |sorted|
  {
    var c, limit := Collected([], last, 0), Limit(|sorted|);
    if last != 0 {
      TakesRestIff(sorted, c, limit);
    } else {
      var d := Take(c, sorted[0]);
      assert d == Collected([sorted[0]], sorted[0].extTSN, 1);
      TakesRestIff(sorted[1..], d, limit);
    }
  }

  // ---------------------------------------------------------------- an overflow

  /** Consecutive numbers that arrive in reverse, each a tick of 250us before the one below it. */
  function Reversed(first: u32, time: int, n: nat): seq<Arrival>
    requires first + n < 0x1_0000_0000
  {
    if n == 0 then [] else Reversed(first, time, n - 1) + [Arrival(first + n - 1, time - n * TICK)]
  }

  lemma PassAppend(pkts: seq<Arrival>, a: Arrival)
    ensures RunPass(pkts + [a]) == StepPass(RunPass(pkts), a)
  {
    assert (pkts + [a])[..|pkts|] == pkts;
  }

  /** A packet that arrived a tick before the one below it. */
  lemma TickBack(p: Pass, a: Arrival)
    requires p.firstRecv && a.timestamp == p.timestamp - TICK != 0
    ensures var q := StepPass(p, a); q.firstRecv && q.timestamp == a.timestamp && |q.deltas| == |p.deltas| + 2
  {
    GoDivTruncates(-TICK, TICK);
    DeltaWidth(-1);
  }

  lemma FirstOne(a: Arrival)
    requires a.timestamp > 0
    ensures var q := StepPass(NO_PACKETS, a); q.firstRecv && q.timestamp == a.timestamp && |q.deltas| == 1
  {
    FirstDeltaIsSmall(NO_PACKETS, a.timestamp);
  }

  lemma {:induction false} ReversedDeltas(first: u32, time: int, n: nat)
    requires 0 < n && first + n < 0x1_0000_0000 && time > n * TICK
    ensures var p := RunPass(Reversed(first, time, n));
            |p.deltas| == 2 * n - 1 && p.firstRecv && p.timestamp == time - n * TICK
  {
    PassAppend(Reversed(first, time, n - 1), Arrival(first + n - 1, time - n * TICK));
    if n == 1 {
      FirstOne(Arrival(first, time - TICK));
    } else {
      ReversedDeltas(first, time, n - 1);
      TickBack(RunPass(Reversed(first, time, n - 1)), Arrival(first + n - 1, time - n * TICK));
    }
  }

  lemma {:induction false} ReversedLength(first: u32, time: int, n: nat)
    requires first + n < 0x1_0000_0000
    ensures |Reversed(first, time, n)| == n
  {
    if n > 0 {
      ReversedLength(first, time, n - 1);
    }
  }

  /** The same packets in the order in which they arrive. */
  function Backwards(top: u32, time: int, n: nat): (r: seq<Arrival>)
    requires n <= top + 1
    ensures |r| == n
  {
    if n == 0 then [] else Backwards(top, time, n - 1) + [Arrival(top - (n - 1), time + (n - 1) * TICK)]
  }

  lemma {:induction false} ReversedHead(first: u32, time: int, n: nat)
    requires n > 0 && first + n < 0x1_0000_0000
    ensures Reversed(first, time, n) == [Arrival(first, time - TICK)] + Reversed(first + 1, time - TICK, n - 1)
  {
    if n > 1 {
      ReversedHead(first, time, n - 1);
    }
  }

  lemma {:induction false} InsertedInFront(s: seq<Arrival>, a: Arrival)
    requires forall i :: 0 <= i < |s| ==> a.extTSN < s[i].extTSN
    ensures InsertInto(s, a) == [a] + s
  {
    if s != [] {
      InsertedInFront(s[..|s| - 1], a);
    }
  }

  lemma {:induction false} ReversedNumbers(first: u32, time: int, n: nat, i: nat)
    requires i < n && first + n < 0x1_0000_0000
    ensures |Reversed(first, time, n)| == n && Reversed(first, time, n)[i] == Arrival(first + i, time - (i + 1) * TICK)
  {
    ReversedLength(first, time, n);
    ReversedLength(first, time, n - 1);
    if i < n - 1 {
      ReversedNumbers(first, time, n - 1, i);
    }
  }

  lemma SortingAppend(xs: seq<Arrival>, a: Arrival)
    ensures Sorting(xs + [a]) == InsertInto(Sorting(xs), a)
  {
    assert (xs + [a])[..|xs|] == xs;
  }

  lemma {:induction false} BackwardsSorted(top: u32, time: int, n: nat)
    requires 0 < n <= top + 1 && top + 1 < 0x1_0000_0000
    ensures Sorting(Backwards(top, time, n)) == Reversed(top - (n - 1), time + n * TICK, n)
  {
    var first, end := top - (n - 1), time + n * TICK;
    var a, rest := Arrival(first, end - TICK), Reversed(first + 1, end - TICK, n - 1);
    var before := Backwards(top, time, n - 1);
    assert Sorting(before) == rest by {
      if n > 1 {
        BackwardsSorted(top, time, n - 1);
      }
    }
    assert Backwards(top, time, n) == before + [a];
    SortingAppend(before, a);
    ReversedAbove(first + 1, end - TICK, n - 1, a);
    InsertedInFront(rest, a);
    ReversedHead(first, end, n);
  }

  lemma ReversedAbove(first: u32, time: int, n: nat, a: Arrival)
    requires first + n < 0x1_0000_0000 && a.extTSN < first
    ensures forall i :: 0 <= i < |Reversed(first, time, n)| ==> a.extTSN < Reversed(first, time, n)[i].extTSN
  {
    ReversedLength(first, time, n);
    forall i | 0 <= i < n ensures a.extTSN < Reversed(first, time, n)[i].extTSN {
      ReversedNumbers(first, time, n, i);
    }
  }

  /**
   Consecutive records, the first of them right after the last reported number or the very first one,
   are all taken.
   */
  lemma {:induction false} ConsecutiveTaken(infos: seq<Arrival>, c: Collected, limit: nat)
    requires Consecutive(infos) && |c.pkts| + |infos| < limit
    requires infos != [] && c.last != 0 ==> infos[0].extTSN == c.last + 1
    ensures Collect(infos, c, limit).pkts == c.pkts + infos
  {
    if infos != [] {
      var d := Take(c, infos[0]);
      assert d.pkts == c.pkts + [infos[0]];
      assert forall i :: 0 < i < |infos[1..]| ==> infos[1..][i - 1] == infos[i] && infos[1..][i] == infos[i + 1];
      ConsecutiveTaken(infos[1..], d, limit);
    }
  }

  lemma ReversedIsConsecutive(first: u32, time: int, n: nat)
    requires first + n < 0x1_0000_0000
    ensures Consecutive(Reversed(first, time, n))
  {
    var s := Reversed(first, time, n);
    ReversedLength(first, time, n);
    forall i | 0 < i < |s| ensures s[i].extTSN == s[i - 1].extTSN + 1 {
      ReversedNumbers(first, time, n, i);
      ReversedNumbers(first, time, n, i - 1);
    }
  }

  /** 101 consecutive packets in reverse order take 201 bytes of deltas: one more than there is room for. */
  lemma BackwardsOverflows(top: u32, time: int)
    requires 101 < top < 0xFFFF_FFFE && time > 0
    ensures |Backwards(top, time, 101)| == 101 && AfterEpoch(Backwards(top, time, 101))
    ensures |RunPass(NextPackets(Backwards(top, time, 101), 0)).deltas| == 201
    ensures !FitsArrays(NextPackets(Backwards(top, time, 101), 0))
  {
    var first, start := top - 100, time + 101 * TICK;
    var s := Reversed(first, start, 101);
    BackwardsSorted(top, time, 101);
    ReversedLength(first, start, 101);
    ReversedIsConsecutive(first, start, 101);
    ConsecutiveTaken(s, Collected([], 0, 0), Limit(|s|));
    assert NextPackets(Backwards(top, time, 101), 0) == s;
    ReversedDeltas(first, start, 101);
    BackwardsTimes(top, time, 101);
  }

  lemma {:induction false} BackwardsTimes(top: u32, time: int, n: nat)
    requires n <= top + 1 && time > 0
    ensures AfterEpoch(Backwards(top, time, n))
  {
    if n > 0 {
      BackwardsTimes(top, time, n - 1);
    }
  }
}
