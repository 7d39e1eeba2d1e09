/**
 The status loop of the transport-wide congestion control responder as a machine that takes
 one packet status at a time and turns the pending ones into chunks, and the proof of when
 a receiver that decodes those chunks sees the statuses that went in.
 */
module TwccEncoder {
  import opened Words
  import opened TwccChunks

  /** The chunks written so far and the loop's variables: statusList, same, lastStatus, maxStatus. */
  datatype Encoder = Encoder(chunks: seq<Chunk>, pending: seq<Symbol>, same: bool, last: Symbol, max: Symbol)

  const START := Encoder([], [], true, WITHOUT_DELTA, NOT_RECEIVED)

  function Max(a: Symbol, b: Symbol): Symbol {
    if a > b then a else b
  }

  /** A run in progress ends at this status and is long enough for a run-length chunk. */
  predicate EndsLongRun(e: Encoder, s: Symbol) {
    e.same && s != e.last && e.last != WITHOUT_DELTA && |e.pending| > 7
  }

  function CloseRun(e: Encoder, s: Symbol): Encoder {
    if EndsLongRun(e, s) then
      Encoder(e.chunks + [RunChunk(e.last, Low16(|e.pending|))], [], true, WITHOUT_DELTA, NOT_RECEIVED)
    else if e.same && s != e.last && e.last != WITHOUT_DELTA then e.(same := false)
    else e
  }

  function Append(e: Encoder, s: Symbol): Encoder {
    e.(pending := e.pending + [s], max := Max(s, e.max), last := s)
  }

  /** The flags, recomputed over the first k statuses left after a two-bit chunk. */
  function Rescan(e: Encoder, k: nat): Encoder
    requires k <= |e.pending|
  {
    if k == 0 then e.(same := true, last := WITHOUT_DELTA, max := NOT_RECEIVED)
    else
      var p, s := Rescan(e, k - 1), e.pending[k - 1];
      p.(max := Max(s, p.max), last := s,
         same := p.same && !(p.last != WITHOUT_DELTA && s != p.last))
  }

  function FlushTwoBit(e: Encoder): Encoder
    requires |e.pending| > 6
  {
    var f := e.(chunks := e.chunks + [VectorChunk(TWO_BIT, e.pending[..7])], pending := e.pending[7..]);
    Rescan(f, |f.pending|)
  }

  function FlushOneBit(e: Encoder): Encoder
    requires |e.pending| > 13
  {
    Encoder(e.chunks + [VectorChunk(ONE_BIT, e.pending[..14])], e.pending[14..], true, WITHOUT_DELTA, NOT_RECEIVED)
  }

  function FlushFull(e: Encoder): Encoder {
    if !e.same && e.max == LARGE_DELTA && |e.pending| > 6 then FlushTwoBit(e)
    else if !e.same && |e.pending| > 13 then FlushOneBit(e)
    else e
  }

  /** One turn of the status loop. */
  function Step(e: Encoder, s: Symbol): Encoder {
    FlushFull(Append(CloseRun(e, s), s))
  }

  function Encode(sts: seq<Symbol>): Encoder {
    if sts == [] then START else Step(Encode(sts[..|sts| - 1]), sts[|sts| - 1])
  }

  /** How many of n pending statuses the last status vector gets: its loop pops while i < Len(), and Len() shrinks. */
  function Popped(n: nat): nat {
    (n + 1) / 2
  }

  /** The chunk of the last flush. */
  function LastChunk(e: Encoder): Chunk
    requires e.pending != []
  {
    if e.same then RunChunk(e.last, Low16(|e.pending|))
    else VectorChunk(if e.max == LARGE_DELTA then TWO_BIT else ONE_BIT, e.pending[..Popped(|e.pending|)])
  }

  /** The chunks of the finished report. */
  function Finish(e: Encoder): seq<Chunk> {
    if e.pending == [] then e.chunks else e.chunks + [LastChunk(e)]
  }

  /** What a receiver decodes from the report. */
  function Reported(sts: seq<Symbol>): seq<Symbol> {
    DecodeChunks(Finish(Encode(sts)))
  }

  // ---------------------------------------------------------------- what every turn keeps

  ghost predicate Known(sts: seq<Symbol>) {
    forall i :: 0 <= i < |sts| ==> sts[i] != WITHOUT_DELTA
  }

  /** `max` is an upper bound that some pending status reaches. */
  ghost predicate MaxOf(max: Symbol, sts: seq<Symbol>) {
    && (forall i :: 0 <= i < |sts| ==> sts[i] <= max)
    && (if sts == [] then max == NOT_RECEIVED else max in sts)
  }

  ghost predicate AllSame(sts: seq<Symbol>) {
    forall i, j :: 0 <= i < j < |sts| ==> sts[i] == sts[j]
  }

  ghost predicate Inv(e: Encoder) {
    && Known(e.pending)
    && MaxOf(e.max, e.pending)
    && e.last == (if e.pending == [] then WITHOUT_DELTA else e.pending[|e.pending| - 1])
    && (e.same <==> AllSame(e.pending))
    && (!e.same ==> |e.pending| <= if e.max == LARGE_DELTA then 7 else 13)
  }

  lemma SameAppend(sts: seq<Symbol>, s: Symbol)
    ensures AllSame(sts + [s]) <==> AllSame(sts) && (sts != [] ==> s == sts[|sts| - 1])
  {
    var r := sts + [s];
    if AllSame(r) {
      assert forall i :: 0 <= i < |sts| ==> sts[i] == r[i];
      assert sts != [] ==> r[|sts| - 1] == r[|sts|];
    }
    if AllSame(sts) && (sts != [] ==> s == sts[|sts| - 1]) {
      forall i, j | 0 <= i < j < |r| ensures r[i] == r[j] {
        assert i < |sts| - 1 ==> sts[i] == sts[|sts| - 1];
      }
    }
  }

  lemma MaxAppend(max: Symbol, sts: seq<Symbol>, s: Symbol)
    requires MaxOf(max, sts)
    ensures MaxOf(Max(s, max), sts + [s])
  {
    assert (sts + [s])[|sts|] == s;
    if max in sts {
      var i :| 0 <= i < |sts| && sts[i] == max;
      assert (sts + [s])[i] == max;
    }
  }

  lemma {:induction false} RescanInv(e: Encoder, k: nat)
    requires Known(e.pending) && k <= |e.pending|
    ensures var r := Rescan(e, k);
            && r.chunks == e.chunks && r.pending == e.pending
            && MaxOf(r.max, e.pending[..k])
            && r.last == (if k == 0 then WITHOUT_DELTA else e.pending[k - 1])
            && (r.same <==> AllSame(e.pending[..k]))
  {
    if k > 0 {
      RescanInv(e, k - 1);
      MaxAppend(Rescan(e, k - 1).max, e.pending[..k - 1], e.pending[k - 1]);
      assert e.pending[..k] == e.pending[..k - 1] + [e.pending[k - 1]];
    }
  }

  /**
   What a turn writes, told from the pending statuses alone. A run of eight or more that ends here
   becomes a run-length chunk. Otherwise the status joins the others, and these, unless they are all
   the same, give a two-bit vector of seven once one of them is large, or a one-bit vector of fourteen.
   */
  lemma StepWrites(e: Encoder, s: Symbol)
    requires Inv(e) && s != WITHOUT_DELTA
    ensures var p, q, r := e.pending, e.pending + [s], Step(e, s);
            if |p| >= 8 && AllSame(p) && s != p[0] then
              r.chunks == e.chunks + [RunChunk(p[0], Low16(|p|))] && r.pending == [s]
            else if !AllSame(q) && LARGE_DELTA in q && |q| >= 7 then
              r.chunks == e.chunks + [VectorChunk(1, q[..7])] && r.pending == q[7..]
            else if !AllSame(q) && |q| >= 14 then
              r.chunks == e.chunks + [VectorChunk(0, q[..14])] && r.pending == q[14..]
            else r.chunks == e.chunks && r.pending == q
  {
    var c := CloseRun(e, s);
    var a := Append(c, s);
    MaxAppend(c.max, c.pending, s);
    SameAppend(e.pending, s);
    if !a.same && a.max == LARGE_DELTA && |a.pending| > 6 {
      var f := a.(chunks := a.chunks + [VectorChunk(TWO_BIT, a.pending[..7])], pending := a.pending[7..]);
      RescanInv(f, |f.pending|);
    }
  }

  lemma FlushTwoBitInv(e: Encoder)
    requires 6 < |e.pending| <= 14 && Known(e.pending)
    ensures Inv(FlushTwoBit(e))
  {
    var f := e.(chunks := e.chunks + [VectorChunk(TWO_BIT, e.pending[..7])], pending := e.pending[7..]);
    RescanInv(f, |f.pending|);
    assert f.pending[..|f.pending|] == f.pending;
  }

  /** The loop's flags say what they are named after, and no list outgrows its chunk. */
  lemma StepInv(e: Encoder, s: Symbol)
    requires Inv(e) && s != WITHOUT_DELTA
    ensures Inv(Step(e, s))
  {
    var c := CloseRun(e, s);
    var a := Append(c, s);
    MaxAppend(c.max, c.pending, s);
    SameAppend(e.pending, s);
    if !a.same && a.max == LARGE_DELTA && |a.pending| > 6 {
      FlushTwoBitInv(a);
    }
  }

  lemma {:induction false} EncodeInv(sts: seq<Symbol>)
    requires Known(sts)
    ensures Inv(Encode(sts))
  {
    if sts != [] {
      EncodeInv(sts[..|sts| - 1]);
      StepInv(Encode(sts[..|sts| - 1]), sts[|sts| - 1]);
    }
  }

  // ---------------------------------------------------------------- losslessness

  /** The statuses an encoder accounts for: those a receiver can decode, then the pending ones. */
  function Accounted(e: Encoder): seq<Symbol> {
    DecodeChunks(e.chunks) + e.pending
  }

  predicate RunFits(e: Encoder, s: Symbol) {
    EndsLongRun(e, s) ==> |e.pending| <= MAX_RUN
  }

  lemma RunOfPending(e: Encoder)
    requires Inv(e) && e.same && e.pending != []
    ensures var c := RunChunk(e.last, Low16(|e.pending|));
            if |e.pending| <= MAX_RUN then DecodeChunk(c) == e.pending
            else |DecodeChunk(c)| + MAX_RUN < |e.pending|
  {
    var n := |e.pending|;
    var l := Low16(n);
    Low16Below(n);
    if l <= MAX_RUN {
      ShortRunRoundTrip(e.last, l);
      assert n <= MAX_RUN ==> e.pending == Repeat(e.last, n);
    } else {
      LongRunIsShortened(e.last, l);
    }
  }

  lemma CloseRunAccounted(e: Encoder, s: Symbol)
    requires Inv(e)
    ensures RunFits(e, s) ==> Accounted(CloseRun(e, s)) == Accounted(e)
    ensures !RunFits(e, s) ==> |Accounted(CloseRun(e, s))| + MAX_RUN < |Accounted(e)|
  {
    if EndsLongRun(e, s) {
      DecodeAppend(e.chunks, RunChunk(e.last, Low16(|e.pending|)));
      RunOfPending(e);
    }
  }

  /** Moving statuses from the pending list into a chunk that holds exactly them loses nothing. */
  lemma MovedToChunk(e: Encoder, f: Encoder, c: Chunk, k: nat)
    requires k <= |e.pending| && DecodeChunk(c) == e.pending[..k]
    requires f.chunks == e.chunks + [c] && f.pending == e.pending[k..]
    ensures Accounted(f) == Accounted(e)
  {
    DecodeAppend(e.chunks, c);
    SplitAssoc(DecodeChunks(e.chunks), e.pending, k);
  }

  lemma SplitAssoc(a: seq<Symbol>, b: seq<Symbol>, k: nat)
    requires k <= |b|
    ensures a + b[..k] + b[k..] == a + b
  {}

  lemma FlushTwoBitAccounted(e: Encoder)
    requires |e.pending| > 6 && Known(e.pending)
    ensures Accounted(FlushTwoBit(e)) == Accounted(e)
  {
    var v, rest := e.pending[..7], e.pending[7..];
    var c := VectorChunk(TWO_BIT, v);
    var f := e.(chunks := e.chunks + [c], pending := rest);
    RescanInv(f, |rest|);
    FullVector(TWO_BIT, v);
    MovedToChunk(e, Rescan(f, |rest|), c, 7);
  }

  /** A vector filled to its capacity needs no padding. */
  lemma FullVector(symbolSize: nat, v: seq<Symbol>)
    requires symbolSize == TWO_BIT ==> |v| == 7
    requires symbolSize == ONE_BIT ==> |v| == 14 && forall i :: 0 <= i < 14 ==> v[i] <= SMALL_DELTA
    requires symbolSize <= 1
    ensures DecodeChunk(VectorChunk(symbolSize, v)) == v
  {
    if symbolSize == TWO_BIT {
      TwoBitRoundTrip(v);
    } else {
      OneBitRoundTrip(v);
    }
  }

  lemma FlushOneBitAccounted(e: Encoder)
    requires |e.pending| == 14 && forall i :: 0 <= i < 14 ==> e.pending[i] <= SMALL_DELTA
    ensures Accounted(FlushOneBit(e)) == Accounted(e)
  {
    var v, rest := e.pending[..14], e.pending[14..];
    var c := VectorChunk(ONE_BIT, v);
    FullVector(ONE_BIT, v);
    MovedToChunk(e, FlushOneBit(e), c, 14);
  }

  /** One turn of the loop loses nothing unless it writes a run that overflows 13 bits. */
  lemma StepAccounted(e: Encoder, s: Symbol)
    requires Inv(e) && s != WITHOUT_DELTA
    ensures RunFits(e, s) ==> Accounted(Step(e, s)) == Accounted(e) + [s]
    ensures !RunFits(e, s) ==> |Accounted(Step(e, s))| + MAX_RUN <= |Accounted(e)|
  {
    CloseRunAccounted(e, s);
    var c := CloseRun(e, s);
    MaxAppend(c.max, c.pending, s);
    var a := Append(c, s);
    assert Accounted(a) == Accounted(c) + [s];
    if !a.same && a.max == LARGE_DELTA && |a.pending| > 6 {
      FlushTwoBitAccounted(a);
    } else if !a.same && |a.pending| > 13 {
      FlushOneBitAccounted(a);
    }
  }

  /** No run-length chunk of the status loop was given more than 13 bits of run. */
  predicate RunsFit(sts: seq<Symbol>) {
    sts == [] || (RunsFit(sts[..|sts| - 1]) && RunFits(Encode(sts[..|sts| - 1]), sts[|sts| - 1]))
  }

  lemma {:induction false} LosslessWhenRunsFit(sts: seq<Symbol>)
    requires Known(sts) && RunsFit(sts)
    ensures Accounted(Encode(sts)) == sts
  {
    if sts != [] {
      var init, s := sts[..|sts| - 1], sts[|sts| - 1];
      LosslessWhenRunsFit(init);
      EncodeInv(init);
      StepAccounted(Encode(init), s);
      LastSplit(sts);
    }
  }

  lemma {:induction false} AccountedBound(sts: seq<Symbol>)
    requires Known(sts)
    ensures |Accounted(Encode(sts))| <= |sts|
    ensures !RunsFit(sts) ==> |Accounted(Encode(sts))| + MAX_RUN <= |sts|
  {
    if sts != [] {
      var init, s := sts[..|sts| - 1], sts[|sts| - 1];
      AccountedBound(init);
      EncodeInv(init);
      StepAccounted(Encode(init), s);
    }
  }

  /** At every turn, decoding the chunks and appending the pending statuses gives the statuses so far. */
  lemma Lossless(sts: seq<Symbol>)
    requires Known(sts)
    ensures Accounted(Encode(sts)) == sts <==> RunsFit(sts)
  {
    AccountedBound(sts);
    if RunsFit(sts) {
      LosslessWhenRunsFit(sts);
    }
  }

  /** At most 8192 statuses cannot make a run that is too long: the last one is not in a run yet. */
  lemma {:induction false} ShortReportsFit(sts: seq<Symbol>)
    requires Known(sts) && |sts| <= MAX_RUN + 1
    ensures RunsFit(sts)
  {
    if sts != [] {
      ShortReportsFit(sts[..|sts| - 1]);
      AccountedBound(sts[..|sts| - 1]);
    }
  }

  // ---------------------------------------------------------------- the finished report

  /**
   The last flush keeps everything: nothing is pending, or a run that fits its chunk, or a
   status vector whose statuses beyond the ones popped are all "not received".
   */
  predicate FlushKeeps(e: Encoder) {
    if e.same then |e.pending| <= MAX_RUN
    else forall i :: Popped(|e.pending|) <= i < |e.pending| ==> e.pending[i] == NOT_RECEIVED
  }

  /** The last status vector shows the popped statuses, then "not received" up to its capacity. */
  lemma LastVector(e: Encoder)
    requires Inv(e) && e.pending != [] && !e.same
    ensures var n := if e.max == LARGE_DELTA then TWO_BIT_CAPACITY else ONE_BIT_CAPACITY;
            && |e.pending| <= n
            && DecodeChunk(LastChunk(e))
            == e.pending[..Popped(|e.pending|)] + Repeat(NOT_RECEIVED, n - Popped(|e.pending|))
  {
    var v := e.pending[..Popped(|e.pending|)];
    if e.max == LARGE_DELTA {
      TwoBitRoundTrip(v);
    } else {
      OneBitRoundTrip(v);
    }
  }

  lemma PaddedPrefix(p: seq<Symbol>, k: nat, n: nat)
    requires k <= |p| <= n
    ensures p <= p[..k] + Repeat(NOT_RECEIVED, n - k) <==> forall i :: k <= i < |p| ==> p[i] == NOT_RECEIVED
  {
    var d := p[..k] + Repeat(NOT_RECEIVED, n - k);
    assert forall i :: k <= i < |p| ==> d[i] == NOT_RECEIVED;
    if p <= d {
      assert forall i :: k <= i < |p| ==> p[i] == d[i];
    }
  }

  lemma LastRunFlush(e: Encoder)
    requires Inv(e) && e.pending != [] && e.same
    ensures e.pending <= DecodeChunk(LastChunk(e)) <==> FlushKeeps(e)
    ensures |DecodeChunk(LastChunk(e))| <= |e.pending|
  {
    RunOfPending(e);
  }

  lemma LastVectorFlush(e: Encoder)
    requires Inv(e) && e.pending != [] && !e.same
    ensures e.pending <= DecodeChunk(LastChunk(e)) <==> FlushKeeps(e)
    ensures |DecodeChunk(LastChunk(e))| <= ONE_BIT_CAPACITY
  {
    var capacity := if e.max == LARGE_DELTA then TWO_BIT_CAPACITY else ONE_BIT_CAPACITY;
    LastVector(e);
    PaddedPrefix(e.pending, Popped(|e.pending|), capacity);
  }

  /**
   A receiver reads back exactly the statuses of the report if and only if no run overflowed
   13 bits and the last flush dropped nothing but "not received" statuses.
   */
  lemma ReportIsFaithful(sts: seq<Symbol>)
    requires Known(sts)
    ensures sts <= Reported(sts) <==> RunsFit(sts) && FlushKeeps(Encode(sts))
  {
    var e := Encode(sts);
    EncodeInv(sts);
    AccountedBound(sts);
    if RunsFit(sts) {
      LosslessWhenRunsFit(sts);
    }
    if e.pending != [] {
      DecodeAppend(e.chunks, LastChunk(e));
      if e.same {
        LastRunFlush(e);
      } else {
        LastVectorFlush(e);
      }
      PrefixOfSum(DecodeChunks(e.chunks), e.pending, DecodeChunk(LastChunk(e)));
    }
  }

  lemma PrefixOfSum(a: seq<Symbol>, b: seq<Symbol>, c: seq<Symbol>)
    ensures a + b <= a + c <==> b <= c
  {
    assert (a + c)[|a|..] == c && (a + b)[|a|..] == b;
    if a + b <= a + c {
      assert (a + c)[..|a + b|][|a|..] == c[..|b|];
    }
  }

  lemma SmallThenLarge()
    ensures Encode([SMALL_DELTA, LARGE_DELTA])
         == Encoder([], [SMALL_DELTA, LARGE_DELTA], false, LARGE_DELTA, LARGE_DELTA)
  {
    assert [SMALL_DELTA, LARGE_DELTA][..1] == [SMALL_DELTA];
    assert Step(START, SMALL_DELTA) == Encoder([], [SMALL_DELTA], true, SMALL_DELTA, SMALL_DELTA);
  }

  /** Two packets, the second with a large delta: the last flush pops one and the receiver sees the second as lost. */
  lemma LastFlushDropsHalf()
    ensures !FlushKeeps(Encode([SMALL_DELTA, LARGE_DELTA]))
    ensures [SMALL_DELTA, NOT_RECEIVED] <= Reported([SMALL_DELTA, LARGE_DELTA])
  {
    SmallThenLarge();
    var e := Encode([SMALL_DELTA, LARGE_DELTA]);
    LastVector(e);
    DecodeAppend([], LastChunk(e));
  }

  /** Every chunk stands for at least seven statuses, except the last. */
  lemma {:induction false} ChunkCount(sts: seq<Symbol>)
    requires Known(sts)
    ensures 7 * |Encode(sts).chunks| + |Encode(sts).pending| <= |sts|
  {
    if sts != [] {
      var init, last := sts[..|sts| - 1], sts[|sts| - 1];
      ChunkCount(init);
      EncodeInv(init);
      StepWrites(Encode(init), last);
    }
  }

  lemma {:induction false} RescanKeeps(e: Encoder, k: nat)
    requires k <= |e.pending|
    ensures Rescan(e, k).chunks == e.chunks && Rescan(e, k).pending == e.pending
  {
    if k > 0 {
      RescanKeeps(e, k - 1);
    }
  }
}
