/**
 The transport-wide congestion control responder: it collects arrival records and writes
 feedback packets into fixed byte arrays, chunk by chunk and delta by delta.
 */
module TwccResponder {
  import opened Words
  import opened TwccChunks
  import opened TwccEncoder
  import opened TwccDeltas
  import opened TwccReports
  import opened TwccFeedback
  import opened TwccLimits
  import Unwrapping = TwccUnwrapping

  const REPORT_DELTA := 100_000_000
  const REPORT_DELTA_AFTER_MARK := 50_000_000

  /** The header of the report over some packets. */
  function ReportHeader(sender: u32, media: u32, pktCtn: byte, pkts: seq<Arrival>): Header
    requires pkts != []
  {
    Header(sender, media, Low16(pkts[0].extTSN), Low16(|pkts|),
           Low32(RunPass(pkts).refTime), pktCtn)
  }

  function ReportPacket(sender: u32, media: u32, pktCtn: byte, pkts: seq<Arrival>): seq<byte>
    requires pkts != [] && FitsArrays(pkts)
  {
    Packet(HeaderBytes(ReportHeader(sender, media, pktCtn, pkts)) + ChunksBytes(ReportChunks(pkts)),
           RunPass(pkts).deltas)
  }

  // ---------------------------------------------------------------- facts the loops need

  lemma {:induction false} ChunksGrow(sts: seq<Symbol>, k: nat)
    requires k <= |sts|
    ensures |Encode(sts[..k]).chunks| <= |Encode(sts).chunks|
  {
    if k < |sts| {
      var init := sts[..|sts| - 1];
      ChunksGrow(init, k);
      assert init[..k] == sts[..k];
      StepGrows(Encode(init), sts[|sts| - 1]);
    } else {
      assert sts[..k] == sts;
    }
  }

  lemma StepGrows(e: Encoder, s: Symbol)
    ensures |e.chunks| <= |CloseRun(e, s).chunks| <= |Step(e, s).chunks|
  {
    var a := Append(CloseRun(e, s), s);
    if !a.same && a.max == LARGE_DELTA && |a.pending| > 6 {
      RescanKeeps(a.(chunks := a.chunks + [VectorChunk(TWO_BIT, a.pending[..7])], pending := a.pending[7..]),
                  |a.pending| - 7);
    }
  }

  /** Before the first received packet nothing is written. */
  lemma {:induction false} NothingReceived(pkts: seq<Arrival>)
    requires !RunPass(pkts).firstRecv
    ensures var e := Encode(RunPass(pkts).sts);
            && e.chunks == [] && e.same && (e.last == NOT_RECEIVED || e.last == WITHOUT_DELTA)
            && RunPass(pkts).deltas == []
  {
    if pkts != [] {
      var p := RunPass(pkts[..|pkts| - 1]);
      NothingReceived(pkts[..|pkts| - 1]);
      assert (p.sts + [NOT_RECEIVED])[..|p.sts|] == p.sts;
    }
  }

  class Responder {
    var extInfo: seq<Arrival>
    var lastReport: int
    /** The cycles word counts up by 2^16; this is the number of cycles. */
    var cycles: u16
    var lastExtSN: u32
    var pktCtn: byte
    var lastSn: u16
    const mSSRC: u32
    const sSSRC: u32

    var len: nat
    var deltaLen: nat
    const payload: array<byte>
    const deltas: array<byte>
    var chunk: Chunk

    /** The packets handed to the onFeedback callback. */
    var feedback: seq<seq<byte>>

    /** Everything pushed and reported so far. */
    ghost var ledger: Ledger

    ghost predicate Valid()
      reads this
    {
      && payload.Length == PAYLOAD_SIZE && deltas.Length == DELTAS_SIZE && payload != deltas
      && len <= PAYLOAD_SIZE && deltaLen <= DELTAS_SIZE
    }

    constructor (ssrc: u32, sender: u32)
      ensures Valid() && fresh(payload) && fresh(deltas)
      ensures extInfo == [] && lastExtSN == 0 && deltaLen == 0 && chunk == Zeros(16) && feedback == []
      ensures Unwrapper() == Unwrapping.Unwrapper(0, 0) && lastReport == 0 && pktCtn == 0 && len == 0
      ensures mSSRC == ssrc && sSSRC == sender && payload.Length == 100 && deltas.Length == 200
      ensures ledger == Ledger([], [], multiset{}) && Tiled(ledger, lastExtSN)
    {
      extInfo, lastReport, cycles, lastExtSN, pktCtn, lastSn := [], 0, 0, 0, 0, 0;
      mSSRC, sSSRC := ssrc, sender;
      len, deltaLen, chunk := 0, 0, Zeros(16);
      payload := new byte[PAYLOAD_SIZE](_ => 0);
      deltas := new byte[DELTAS_SIZE](_ => 0);
      feedback := [];
      ledger := Ledger([], [], multiset{});
    }

    // ------------------------------------------------------------ writers

    method PutPayload(at: nat, bytes: seq<byte>)
      requires Valid() && at + |bytes| <= PAYLOAD_SIZE
      modifies payload
      ensures payload[..at] == old(payload[..at]) && payload[at..at + |bytes|] == bytes
    {
      for i := 0 to |bytes|
        invariant payload[..at] == old(payload[..at])
        invariant payload[at..at + i] == bytes[..i]
      {
        payload[at + i] := bytes[i];
        assert payload[at..at + i + 1] == payload[at..at + i] + [bytes[i]];
      }
    }

    method WriteHeader(bSN: u16, packetCount: u16, refTime: u32)
      requires Valid()
      modifies this`len, payload
      ensures Valid() && len == HEADER_SIZE
      ensures payload[..len] == HeaderBytes(Header(sSSRC, mSSRC, bSN, packetCount, refTime, pktCtn))
    {
      var h := HeaderBytes(Header(sSSRC, mSSRC, bSN, packetCount, refTime, pktCtn));
      PutPayload(0, h);
      len := HEADER_SIZE;
      assert payload[0..0 + |h|] == payload[..len];
    }

    method WriteRunLengthChunk(symbol: Symbol, runLength: u16)
      requires Valid() && len + 2 <= PAYLOAD_SIZE
      modifies this`len, payload
      ensures Valid() && len == old(len) + 2
      ensures payload[..len] == old(payload[..len]) + ChunkBytes(RunChunk(symbol, runLength))
    {
      PutPayload(len, ChunkBytes(RunChunk(symbol, runLength)));
      len := len + 2;
      assert payload[..len] == payload[..len - 2] + payload[len - 2..len];
    }

    method CreateStatusSymbolChunk(symbolSize: nat, symbol: Symbol, i: nat)
      modifies this`chunk
      ensures chunk == CreateSymbol(old(chunk), symbolSize, symbol, i)
    {
      chunk := SetNBits(chunk, symbolSize + 1, (symbolSize + 1) * i + 2, symbol);
    }

    method WriteStatusSymbolChunk(symbolSize: nat)
      requires Valid() && len + 2 <= PAYLOAD_SIZE
      modifies this`len, this`chunk, payload
      ensures Valid() && len == old(len) + 2 && chunk == Zeros(16)
      ensures payload[..len] == old(payload[..len]) + ChunkBytes(SealVector(old(chunk), symbolSize))
    {
      chunk := SetNBits(chunk, 1, 0, 1);
      chunk := SetNBits(chunk, 1, 1, symbolSize);
      PutPayload(len, ChunkBytes(chunk));
      chunk := Zeros(16);
      len := len + 2;
      assert payload[..len] == payload[..len - 2] + payload[len - 2..len];
    }

    method WriteDelta(deltaType: Symbol, delta: u16)
      requires Valid() && deltaType != NOT_RECEIVED
      requires deltaType == SMALL_DELTA ==> delta <= 255 && deltaLen + 1 <= DELTAS_SIZE
      requires deltaType != SMALL_DELTA ==> deltaLen + 2 <= DELTAS_SIZE
      modifies this`deltaLen, deltas
      ensures Valid()
      ensures deltas[..deltaLen] == old(deltas[..deltaLen]) + if deltaType == SMALL_DELTA then [delta] else Be16(delta)
    {
      if deltaType == SMALL_DELTA {
        deltas[deltaLen] := delta;
        deltaLen := deltaLen + 1;
      } else {
        deltas[deltaLen], deltas[deltaLen + 1] := High8(delta), Low8(delta);
        deltaLen := deltaLen + 2;
      }
    }

    // ------------------------------------------------------------ status vectors

    /** Pops `count` statuses into the chunk being built. */
    method FillChunk(symbolSize: nat, count: nat, statusList: seq<Symbol>) returns (rest: seq<Symbol>)
      requires chunk == Zeros(16) && count <= |statusList|
      modifies this`chunk
      ensures chunk == FilledSymbols(symbolSize, statusList[..count]) && rest == statusList[count..]
    {
      rest := statusList;
      for i := 0 to count
        invariant rest == statusList[i..] && chunk == FilledSymbols(symbolSize, statusList[..i])
      {
        CreateStatusSymbolChunk(symbolSize, rest[0], i);
        rest := rest[1..];
        assert statusList[..i + 1][..i] == statusList[..i];
      }
    }

    /** The loops of the last flush: they stop when the counter meets the shrinking length. */
    method DrainChunk(symbolSize: nat, statusList: seq<Symbol>)
      requires chunk == Zeros(16)
      modifies this`chunk
      ensures chunk == FilledSymbols(symbolSize, statusList[..Popped(|statusList|)])
    {
      var rest, i := statusList, 0;
      PoppedHalf(|statusList|, 0);
      while i < |rest|
        invariant i <= Popped(|statusList|) <= |statusList| && rest == statusList[i..]
        invariant i < |statusList| - i <==> i < Popped(|statusList|)
        invariant chunk == FilledSymbols(symbolSize, statusList[..i])
      {
        CreateStatusSymbolChunk(symbolSize, rest[0], i);
        rest := rest[1..];
        assert statusList[..i + 1][..i] == statusList[..i];
        i := i + 1;
        PoppedHalf(|statusList|, i);
      }
    }

    /** Fills and writes one full status vector. */
    method FlushVector(symbolSize: nat, count: nat, statusList: seq<Symbol>, ghost front: seq<byte>,
                       ghost cs: seq<Chunk>)
      returns (rest: seq<Symbol>)
      requires Valid() && chunk == Zeros(16) && count <= |statusList| && len + 2 <= PAYLOAD_SIZE
      requires payload[..len] == front + ChunksBytes(cs)
      modifies this`len, this`chunk, payload
      ensures Valid() && chunk == Zeros(16) && rest == statusList[count..] && len == old(len) + 2
      ensures payload[..len] == front + ChunksBytes(cs + [VectorChunk(symbolSize, statusList[..count])])
    {
      rest := FillChunk(symbolSize, count, statusList);
      ghost var c := VectorChunk(symbolSize, statusList[..count]);
      WriteStatusSymbolChunk(symbolSize);
      ChunksBytesAppend(cs, c);
    }

    method FlushLastVector(symbolSize: nat, statusList: seq<Symbol>, ghost front: seq<byte>, ghost cs: seq<Chunk>)
      requires Valid() && chunk == Zeros(16) && len + 2 <= PAYLOAD_SIZE
      requires payload[..len] == front + ChunksBytes(cs)
      modifies this`len, this`chunk, payload
      ensures Valid() && chunk == Zeros(16)
      ensures payload[..len] == front + ChunksBytes(cs + [VectorChunk(symbolSize, statusList[..Popped(|statusList|)])])
    {
      DrainChunk(symbolSize, statusList);
      ghost var c := VectorChunk(symbolSize, statusList[..Popped(|statusList|)]);
      WriteStatusSymbolChunk(symbolSize);
      ChunksBytesAppend(cs, c);
    }

    method FlushRun(symbol: Symbol, runLength: u16, ghost front: seq<byte>, ghost cs: seq<Chunk>)
      requires Valid() && len + 2 <= PAYLOAD_SIZE
      requires payload[..len] == front + ChunksBytes(cs)
      modifies this`len, payload
      ensures Valid() && len == old(len) + 2
      ensures payload[..len] == front + ChunksBytes(cs + [RunChunk(symbol, runLength)])
    {
      WriteRunLengthChunk(symbol, runLength);
      ChunksBytesAppend(cs, RunChunk(symbol, runLength));
    }

    /** Recomputes same, lastStatus and maxStatus over the statuses that a two-bit flush left. */
    method Recompute(statusList: seq<Symbol>, ghost e: Encoder) returns (same: bool, last: Symbol, max: Symbol)
      requires e.pending == statusList
      ensures Rescan(e, |statusList|) == Encoder(e.chunks, statusList, same, last, max)
    {
      last, max, same := WITHOUT_DELTA, NOT_RECEIVED, true;
      for i := 0 to |statusList|
        invariant Rescan(e, i) == Encoder(e.chunks, statusList, same, last, max)
      {
        var status := statusList[i];
        if status > max {
          max := status;
        }
        if same && last != WITHOUT_DELTA && status != last {
          same := false;
        }
        last := status;
      }
    }

    /** A status that ends a run closes it: as a run-length chunk if it is long, as part of a vector to come if not. */
    method EndRun(status: Symbol, statusList: seq<Symbol>, same: bool, lastStatus: Symbol, maxStatus: Symbol,
                  ghost front: seq<byte>, ghost cs: seq<Chunk>)
      returns (list: seq<Symbol>, same': bool, last': Symbol, max': Symbol)
      requires Valid() && payload[..len] == front + ChunksBytes(cs)
      requires |front|
               + 2 * |CloseRun(Encoder(cs, statusList, same, lastStatus, maxStatus), status).chunks| <= PAYLOAD_SIZE
      modifies this`len, payload
      ensures Valid()
      ensures var c := CloseRun(Encoder(cs, statusList, same, lastStatus, maxStatus), status);
              c == Encoder(c.chunks, list, same', last', max') && payload[..len] == front + ChunksBytes(c.chunks)
    {
      list, same', last', max' := statusList, same, lastStatus, maxStatus;
      if same' && status != last' && last' != WITHOUT_DELTA {
        if |list| > 7 {
          FlushRun(last', Low16(|list|), front, cs);
          list, last', max', same' := [], WITHOUT_DELTA, NOT_RECEIVED, true;
        } else {
          same' := false;
        }
      }
    }

    /** Statuses that fill a status vector are written as one. */
    method FlushVectors(statusList: seq<Symbol>, same: bool, lastStatus: Symbol, maxStatus: Symbol,
                        ghost front: seq<byte>, ghost cs: seq<Chunk>)
      returns (list: seq<Symbol>, same': bool, last': Symbol, max': Symbol)
      requires Valid() && chunk == Zeros(16) && payload[..len] == front + ChunksBytes(cs)
      requires |front| + 2 * |FlushFull(Encoder(cs, statusList, same, lastStatus, maxStatus)).chunks| <= PAYLOAD_SIZE
      modifies this`len, this`chunk, payload
      ensures Valid() && chunk == Zeros(16)
      ensures var f := FlushFull(Encoder(cs, statusList, same, lastStatus, maxStatus));
              f == Encoder(f.chunks, list, same', last', max') && payload[..len] == front + ChunksBytes(f.chunks)
    {
      list, same', last', max' := statusList, same, lastStatus, maxStatus;
      if !same' && max' == LARGE_DELTA && |list| > 6 {
        ghost var f := Encoder(cs + [VectorChunk(TWO_BIT, list[..7])], list[7..], same', last', max');
        RescanKeeps(f, |f.pending|);
        list := FlushVector(TWO_BIT, 7, list, front, cs);
        same', last', max' := Recompute(list, f);
      } else if !same' && |list| > 13 {
        list := FlushVector(ONE_BIT, 14, list, front, cs);
        last', max', same' := WITHOUT_DELTA, NOT_RECEIVED, true;
      }
    }

    /** The part of the status loop that turns pending statuses into chunks. */
    method PushStatus(status: Symbol, statusList: seq<Symbol>, same: bool, lastStatus: Symbol, maxStatus: Symbol,
                      ghost front: seq<byte>, ghost cs: seq<Chunk>)
      returns (list: seq<Symbol>, same': bool, last': Symbol, max': Symbol)
      requires Valid() && chunk == Zeros(16) && payload[..len] == front + ChunksBytes(cs)
      requires |front| + 2 * |Step(Encoder(cs, statusList, same, lastStatus, maxStatus), status).chunks| <= PAYLOAD_SIZE
      modifies this`len, this`chunk, payload
      ensures Valid() && chunk == Zeros(16)
      ensures var f := Step(Encoder(cs, statusList, same, lastStatus, maxStatus), status);
              f == Encoder(f.chunks, list, same', last', max') && payload[..len] == front + ChunksBytes(f.chunks)
    {
      ghost var c := CloseRun(Encoder(cs, statusList, same, lastStatus, maxStatus), status);
      StepGrows(Encoder(cs, statusList, same, lastStatus, maxStatus), status);
      list, same', last', max' := EndRun(status, statusList, same, lastStatus, maxStatus, front, cs);
      list := list + [status];
      if status > max' {
        max' := status;
      }
      last' := status;
      assert Append(c, status) == Encoder(c.chunks, list, same', last', max');
      list, same', last', max' := FlushVectors(list, same', last', max', front, c.chunks);
    }

    /** The last flush of a report. */
    method FlushRest(statusList: seq<Symbol>, same: bool, lastStatus: Symbol, maxStatus: Symbol,
                     ghost front: seq<byte>, ghost cs: seq<Chunk>)
      requires Valid() && chunk == Zeros(16)
      requires payload[..len] == front + ChunksBytes(cs)
      requires |front| + 2 * |Finish(Encoder(cs, statusList, same, lastStatus, maxStatus))| <= PAYLOAD_SIZE
      modifies this`len, this`chunk, payload
      ensures Valid() && chunk == Zeros(16)
      ensures payload[..len] == front + ChunksBytes(Finish(Encoder(cs, statusList, same, lastStatus, maxStatus)))
    {
      if |statusList| > 0 {
        if same {
          FlushRun(lastStatus, Low16(|statusList|), front, cs);
        } else if maxStatus == LARGE_DELTA {
          FlushLastVector(TWO_BIT, statusList, front, cs);
        } else {
          FlushLastVector(ONE_BIT, statusList, front, cs);
        }
      }
    }

    /** Writes a delta, a large one saturated to int16, and says which status goes with it. */
    method RecordDelta(delta: int) returns (status: Symbol)
      requires Valid() && deltaLen + |DeltaBytes(delta)| <= DELTAS_SIZE
      modifies this`deltaLen, deltas
      ensures Valid() && status == DeltaStatus(delta)
      ensures deltas[..deltaLen] == old(deltas[..deltaLen]) + DeltaBytes(delta)
    {
      if delta < 0 || delta > 255 {
        status := LARGE_DELTA;
        var rDelta := ToInt16(delta);
        if rDelta != delta {
          if rDelta > 0 {
            rDelta := 0x7FFF;
          } else {
            rDelta := -0x8000;
          }
        }
        WriteDelta(status, Low16(rDelta));
      } else {
        status := SMALL_DELTA;
        WriteDelta(status, delta);
      }
    }

    /** The timing part of the status loop: the first received packet brings the header, every one its delta. */
    method Stamp(stat: Arrival, first: bool, last: int, bSN: u16, packetCount: u16, ghost p: Pass)
      returns (status: Symbol, firstRecv: bool, timestamp: int)
      requires Valid() && first == p.firstRecv && last == p.timestamp && deltas[..deltaLen] == p.deltas
      requires |StepPass(p, stat).deltas| <= DELTAS_SIZE
      modifies this`len, this`deltaLen, this`pktCtn, payload, deltas
      ensures Valid()
      ensures var q := StepPass(p, stat);
              && firstRecv == q.firstRecv && timestamp == q.timestamp && deltas[..deltaLen] == q.deltas
              && q.sts == p.sts + [status] && status != WITHOUT_DELTA
      ensures p.firstRecv == firstRecv ==> payload[..len] == old(payload[..len]) && pktCtn == old(pktCtn)
      ensures p.firstRecv != firstRecv ==>
                && payload[..len] == HeaderBytes(Header(sSSRC, mSSRC, bSN, packetCount,
                                                        Low32(StepPass(p, stat).refTime), old(pktCtn)))
                && pktCtn == Add8(old(pktCtn), 1)
    {
      status, firstRecv, timestamp := NOT_RECEIVED, first, last;
      if stat.timestamp != 0 {
        if !firstRecv {
          firstRecv := true;
          var refTime := GoDiv(stat.timestamp, REFERENCE_UNIT);
          timestamp := refTime * REFERENCE_UNIT;
          WriteHeader(bSN, packetCount, Low32(refTime));
          pktCtn := Add8(pktCtn, 1);
        }
        status := RecordDelta(GoDiv(stat.timestamp - timestamp, TICK));
        timestamp := stat.timestamp;
      }
    }

    /** What the status loop has written when the pass is at p and the encoder at e. */
    ghost predicate Written(p: Pass, e: Encoder, h: Header)
      requires Valid()
      reads this, payload, deltas
    {
      && chunk == Zeros(16)
      && deltas[..deltaLen] == p.deltas
      && pktCtn == (if p.firstRecv then Add8(h.pktCtn, 1) else h.pktCtn)
      && (if p.firstRecv then payload[..len] == HeaderBytes(h) + ChunksBytes(e.chunks) else e.chunks == [])
    }

    /** One turn of the status loop. */
    method TakePacket(stat: Arrival, first: bool, last: int, bSN: u16, packetCount: u16,
                      list: seq<Symbol>, same: bool, lastStatus: Symbol, maxStatus: Symbol,
                      ghost p: Pass, ghost e: Encoder, ghost h: Header)
      returns (firstRecv: bool, timestamp: int, list': seq<Symbol>, same': bool, last': Symbol, max': Symbol)
      requires Valid() && Written(p, e, h) && CanTake(p, e, h, stat)
      requires first == p.firstRecv && last == p.timestamp && e == Encoder(e.chunks, list, same, lastStatus, maxStatus)
      requires h == Header(sSSRC, mSSRC, bSN, packetCount, h.refTime, h.pktCtn)
      modifies this`len, this`deltaLen, this`pktCtn, this`chunk, payload, deltas
      ensures Valid()
      ensures var q := StepPass(p, stat);
              var f := Step(e, q.sts[|q.sts| - 1]);
              && Written(q, f, h) && firstRecv == q.firstRecv && timestamp == q.timestamp
              && f == Encoder(f.chunks, list', same', last', max')
    {
      ghost var q := StepPass(p, stat);
      var status: Symbol;
      status, firstRecv, timestamp := Stamp(stat, first, last, bSN, packetCount, p);
      ghost var front := if q.firstRecv then HeaderBytes(h) else payload[..len];
      assert payload[..len] == front + ChunksBytes(e.chunks);
      list', same', last', max' := PushStatus(status, list, same, lastStatus, maxStatus, front, e.chunks);
    }

    /** The status loop: statuses into chunks, arrival times into deltas. */
    method WriteStatuses(tccPkts: seq<Arrival>)
      returns (statusList: seq<Symbol>, same: bool, lastStatus: Symbol, maxStatus: Symbol)
      requires Valid() && chunk == Zeros(16) && deltaLen == 0 && tccPkts != [] && FitsArrays(tccPkts)
      modifies this`len, this`deltaLen, this`pktCtn, this`chunk, payload, deltas
      ensures Valid()
      ensures var p := RunPass(tccPkts);
              var e := Encode(p.sts);
              && Written(p, e, ReportHeader(sSSRC, mSSRC, old(pktCtn), tccPkts))
              && e == Encoder(e.chunks, statusList, same, lastStatus, maxStatus)
    {
      var firstRecv, timestamp := false, 0;
      same, lastStatus, maxStatus, statusList := true, WITHOUT_DELTA, NOT_RECEIVED, [];
      ghost var h := ReportHeader(sSSRC, mSSRC, pktCtn, tccPkts);
      ghost var p, e := NO_PACKETS, START;
      for i := 0 to |tccPkts|
        invariant Valid() && Written(p, e, h)
        invariant p == RunPass(tccPkts[..i]) && e == Encode(p.sts)
        invariant firstRecv == p.firstRecv && timestamp == p.timestamp
        invariant e == Encoder(e.chunks, statusList, same, lastStatus, maxStatus)
      {
        StepOfPrefix(tccPkts, i, h);
        ghost var q := StepPass(p, tccPkts[i]);
        firstRecv, timestamp, statusList, same, lastStatus, maxStatus :=
          TakePacket(tccPkts[i], firstRecv, timestamp, Low16(tccPkts[0].extTSN), Low16(|tccPkts|),
                     statusList, same, lastStatus, maxStatus, p, e, h);
        p, e := q, Step(e, q.sts[|q.sts| - 1]);
      }
      assert tccPkts[..|tccPkts|] == tccPkts;
    }

    // ------------------------------------------------------------ reports

    /** The packets of the next report; sets lastExtSN and keeps the arrivals that did not fit. */
    method CollectPackets(sorted: seq<Arrival>) returns (tccPkts: seq<Arrival>)
      modifies this`extInfo, this`lastExtSN
      ensures var d := Collection(sorted, old(lastExtSN));
              tccPkts == d.pkts && lastExtSN == d.last && extInfo == Leftover(sorted, d.consumed)
    {
      var maxTccPktsLen := Limit(|sorted|);
      tccPkts := [];
      var consumedExtInfo, i := 0, 0;
      while i < |sorted|
        invariant i <= |sorted|
        invariant Collection(sorted, old(lastExtSN))
               == Collect(sorted[i..], Collected(tccPkts, lastExtSN, consumedExtInfo), maxTccPktsLen)
      {
        var tccExtInfo := sorted[i];
        assert sorted[i..][1..] == sorted[i + 1..];
        ghost var c := Collected(tccPkts, lastExtSN, consumedExtInfo);
        if tccExtInfo.extTSN >= lastExtSN {
          if lastExtSN != 0 {
            tccPkts := FillGap(tccPkts, Add32(lastExtSN, 1), tccExtInfo.extTSN);
          }
          lastExtSN := tccExtInfo.extTSN;
          tccPkts := tccPkts + [tccExtInfo];
          consumedExtInfo := consumedExtInfo + 1;
          assert Take(c, tccExtInfo) == Collected(tccPkts, lastExtSN, consumedExtInfo);
          if |tccPkts| >= maxTccPktsLen {
            break;
          }
        }
        i := i + 1;
      }
      extInfo := if consumedExtInfo >= |sorted| then [] else sorted[consumedExtInfo..];
    }

    /** pLen, padSize and the RTCP header around payload and deltas. */
    method Assemble() returns (pkt: seq<byte>)
      requires Valid()
      ensures pkt == Packet(payload[..len], deltas[..deltaLen])
    {
      var pLen, padSize, padding := Pad(len + deltaLen + 4);
      var hb := [0x80 + (if padSize != 0 then 0x20 else 0) + FORMAT_TCC, TYPE_TRANSPORT_SPECIFIC_FEEDBACK]
          + Be16(pLen / 4 - 1);
      PadIsModulo(pLen);
      pkt := hb + payload[..len] + deltas[..deltaLen] + padding;
    }

    ghost predicate Idle()
      reads this
    {
      Valid() && chunk == Zeros(16) && deltaLen == 0
    }

    /** The statuses, chunks, deltas and framing of one report. */
    method WriteReport(tccPkts: seq<Arrival>) returns (pkt: seq<byte>)
      requires Idle() && tccPkts != [] && FitsArrays(tccPkts) && Received(tccPkts) > 0
      modifies this`len, this`deltaLen, this`pktCtn, this`chunk, payload, deltas
      ensures Idle() && pktCtn == Add8(old(pktCtn), 1)
      ensures pkt == ReportPacket(sSSRC, mSSRC, old(pktCtn), tccPkts)
    {
      PassLayout(tccPkts);
      ghost var h := ReportHeader(sSSRC, mSSRC, pktCtn, tccPkts);
      var statusList, same, lastStatus, maxStatus := WriteStatuses(tccPkts);
      FlushRest(statusList, same, lastStatus, maxStatus, HeaderBytes(h), Encode(RunPass(tccPkts).sts).chunks);
      pkt := Assemble();
      deltaLen := 0;
    }

    /**
     The packet that a report over some packets comes out as. If nothing was collected, no header is
     written, and what the payload still has from the report before goes out again.
     */
    ghost function Outgoing(pkts: seq<Arrival>): seq<byte>
      requires Valid() && FitsArrays(pkts)
      reads this, payload
    {
      if pkts == [] then Packet(payload[..len], []) else ReportPacket(sSSRC, mSSRC, pktCtn, pkts)
    }

    /** Every pending arrival has a time, and the next report fits the arrays. */
    ghost predicate CanReport()
      reads this
    {
      AllReceived(extInfo) && FitsArrays(NextPackets(extInfo, lastExtSN))
    }

    method BuildTransportCCPacket() returns (pkt: Option<seq<byte>>)
      requires Idle() && CanReport()
      modifies this`extInfo, this`lastExtSN, this`len, this`deltaLen, this`pktCtn, this`chunk, payload, deltas
      ensures Idle()
      ensures old(extInfo) == [] ==> pkt == None && extInfo == [] && lastExtSN == old(lastExtSN)
      ensures old(extInfo) != [] ==>
                var d := Collection(Sorting(old(extInfo)), old(lastExtSN));
                && lastExtSN == d.last && extInfo == Leftover(Sorting(old(extInfo)), d.consumed)
                && pkt == Some(old(Outgoing(NextPackets(extInfo, lastExtSN))))
    {
      if extInfo == [] {
        return None;
      }
      var infos := SortByNumber(extInfo);
      NextReceived(extInfo, lastExtSN);
      var tccPkts := CollectPackets(infos);
      assert tccPkts == old(NextPackets(extInfo, lastExtSN));
      assert Outgoing(tccPkts) == old(Outgoing(NextPackets(extInfo, lastExtSN)));
      var bytes := WritePacket(tccPkts);
      pkt := Some(bytes);
    }

    /** The rest of the report; without packets the status loop and its flush have nothing to do. */
    method WritePacket(tccPkts: seq<Arrival>) returns (pkt: seq<byte>)
      requires Idle() && FitsArrays(tccPkts) && (tccPkts != [] ==> Received(tccPkts) > 0)
      modifies this`len, this`deltaLen, this`pktCtn, this`chunk, payload, deltas
      ensures Idle() && pkt == old(Outgoing(tccPkts))
      ensures tccPkts == [] ==> payload[..len] == old(payload[..len]) && pktCtn == old(pktCtn)
    {
      if tccPkts != [] {
        pkt := WriteReport(tccPkts);
      } else {
        pkt := Assemble();
        assert deltas[..deltaLen] == [];
      }
    }

    /** How the class unwraps numbers. */
    function Unwrapper(): Unwrapping.Unwrapper
      reads this
    {
      Unwrapping.Unwrapper(cycles, lastSn)
    }

    /** The unwrapped number that Push gives to the next arrival. */
    function NextExtSN(sn: u16): u32
      reads this
    {
      Unwrapping.Number(Unwrapping.Next(Unwrapper(), sn))
    }

    /** A report is due once the next arrival is recorded. */
    predicate Due(timeNS: int, marker: bool)
      reads this
    {
      var delta := timeNS - if lastReport == 0 then timeNS else lastReport;
      && |extInfo| + 1 > 20 && mSSRC != 0
      && (delta >= REPORT_DELTA || |extInfo| + 1 > 100 || (marker && delta >= REPORT_DELTA_AFTER_MARK))
    }

    /**
     A report is due with more than 20 arrivals, this one included, of a track whose source is known:
     100 ms after the last report, or 50 ms after it at the end of a frame, or with more than 100
     arrivals. The first arrival starts the clock.
     */
    lemma DueIff(timeNS: int, marker: bool)
      ensures var since := if lastReport == 0 then 0 else timeNS - lastReport;
              Due(timeNS, marker) <==>
              && mSSRC != 0 && |extInfo| >= 20
              && (since >= 100_000_000 || (marker && since >= 50_000_000) || |extInfo| >= 100)
    {}

    /** Builds the report over the pending arrivals and hands it to the callback. */
    method SendReport()
      requires Idle() && ledger.pending == extInfo && extInfo != [] && CanReport()
      modifies this`extInfo, this`lastExtSN, this`len, this`deltaLen, this`pktCtn, this`chunk
      modifies this`feedback, this`ledger, payload, deltas
      ensures Idle() && ledger.pending == extInfo
      ensures ledger == Report(old(ledger), Sorting(old(extInfo)), old(lastExtSN))
      ensures lastExtSN == Collection(Sorting(old(extInfo)), old(lastExtSN)).last
      ensures feedback == old(feedback) + [old(Outgoing(NextPackets(extInfo, lastExtSN)))]
      ensures old(Tiled(ledger, lastExtSN)) ==> Tiled(ledger, lastExtSN) && |extInfo| < |old(extInfo)|
      ensures NextPackets(old(extInfo), old(lastExtSN)) == [] <==> AllLate(old(extInfo), old(lastExtSN))
    {
      ghost var before, infos := lastExtSN, extInfo;
      SortingSorts(extInfo);
      if Tiled(ledger, before) {
        ReportKeepsTiled(ledger, Sorting(extInfo), before);
      }
      StaleIff(extInfo, before);
      var pkt := BuildTransportCCPacket();
      if pkt.Some? {
        feedback := feedback + [pkt.value];
      }
      ledger := Report(ledger, Sorting(infos), before);
    }

    /** The arrival is of a number that is new and beyond the last reported one, at a time of at least a microsecond. */
    ghost predicate InOrder(sn: u16, timeNS: int)
      reads this
    {
      && NextExtSN(sn) > lastExtSN && (forall i :: 0 <= i < |extInfo| ==> extInfo[i].extTSN != NextExtSN(sn))
      && timeNS >= 1000
    }

    /** The arrivals that a report in this call would be over. */
    ghost function Pending(sn: u16, timeNS: int): seq<Arrival>
      reads this
    {
      extInfo + [Arrival(NextExtSN(sn), GoDiv(timeNS, 1000))]
    }

    /**
     What a call needs so that the Go code does not write beyond its arrays: nothing while up to 100
     arrivals are pending (HundredFit), and from the 101st on that the report fits.
     */
    ghost predicate MayPush(sn: u16, timeNS: int)
      reads this
    {
      && timeNS >= 1000 && AfterEpoch(extInfo) && AllReceived(extInfo)
      && (mSSRC != 0 && |extInfo| >= 100 ==> FitsArrays(NextPackets(Pending(sn, timeNS), lastExtSN)))
    }

    /**
     Records an arrival and, when a report is due, sends it. As long as the arrivals are in order,
     reordered ones that were not reported yet included, the reports of the whole run tile the number
     space. If every pending number is below the last reported one, the payload of the report
     before is sent again.
     */
    method Push(sn: u16, timeNS: int, marker: bool)
      requires Idle() && ledger.pending == extInfo && MayPush(sn, timeNS)
      modifies this, payload, deltas
      ensures Idle() && ledger.pending == extInfo && AfterEpoch(extInfo) && AllReceived(extInfo)
      ensures Unwrapper() == Unwrapping.Next(old(Unwrapper()), sn)
      ensures old(Tiled(ledger, lastExtSN) && InOrder(sn, timeNS)) ==>
                Tiled(ledger, lastExtSN) && (mSSRC != 0 && |old(extInfo)| <= 100 ==> |extInfo| <= 100)
      ensures ledger.pushed == old(ledger).pushed + multiset{Arrival(old(NextExtSN(sn)), GoDiv(timeNS, 1000))}
      ensures lastReport == if old(Due(timeNS, marker)) || old(lastReport) == 0 then timeNS else old(lastReport)
      ensures !old(Due(timeNS, marker)) ==>
                extInfo == old(Pending(sn, timeNS)) && ledger.reported == old(ledger).reported
                    && feedback == old(feedback)
                && lastExtSN == old(lastExtSN) && payload[..len] == old(payload[..len]) && pktCtn == old(pktCtn)
      ensures old(Due(timeNS, marker)) ==>
                var infos := old(Pending(sn, timeNS));
                var pkts := NextPackets(infos, old(lastExtSN));
                && FitsArrays(pkts) && (pkts == [] <==> AllLate(infos, old(lastExtSN)))
                && lastExtSN == Collection(Sorting(infos), old(lastExtSN)).last
                && ledger.reported == old(ledger).reported + pkts
                && feedback == old(feedback) + [if pkts == [] then Packet(old(payload[..len]), [])
                                                else ReportPacket(sSSRC, mSSRC, old(pktCtn), pkts)]
    {
      PushedTimes(extInfo, NextExtSN(sn), timeNS);
      DueFits(extInfo, Pending(sn, timeNS), lastExtSN);
      Record(sn, timeNS);
      lastSn := sn;
      assert DueNow(timeNS, marker) == old(Due(timeNS, marker));
      ReportIfDue(timeNS, marker);
    }

    /** The test at the end of Push. */
    predicate DueNow(timeNS: int, marker: bool)
      reads this
    {
      var delta := timeNS - lastReport;
      && |extInfo| > 20 && mSSRC != 0
      && (delta >= REPORT_DELTA || |extInfo| > 100 || (marker && delta >= REPORT_DELTA_AFTER_MARK))
    }

    /** The part of Push behind the record. */
    method ReportIfDue(timeNS: int, marker: bool)
      requires Idle() && ledger.pending == extInfo && AfterEpoch(extInfo) && AllReceived(extInfo)
      requires mSSRC != 0 ==> FitsArrays(NextPackets(extInfo, lastExtSN))
      modifies this`extInfo, this`lastExtSN, this`len, this`deltaLen, this`pktCtn, this`chunk
      modifies this`feedback, this`ledger, this`lastReport, payload, deltas
      ensures Idle() && ledger.pending == extInfo && AfterEpoch(extInfo) && AllReceived(extInfo)
      ensures ledger.pushed == old(ledger).pushed
      ensures old(Tiled(ledger, lastExtSN)) ==> Tiled(ledger, lastExtSN)
      ensures if old(DueNow(timeNS, marker)) then
                var pkts := NextPackets(old(extInfo), old(lastExtSN));
                && lastReport == timeNS && (pkts == [] <==> AllLate(old(extInfo), old(lastExtSN)))
                && lastExtSN == Collection(Sorting(old(extInfo)), old(lastExtSN)).last
                && ledger.reported == old(ledger).reported + pkts && FitsArrays(pkts)
                && feedback == old(feedback) + [old(Outgoing(NextPackets(extInfo, lastExtSN)))]
                && (old(Tiled(ledger, lastExtSN)) ==> |extInfo| < |old(extInfo)|)
              else
                && extInfo == old(extInfo) && lastReport == old(lastReport) && ledger == old(ledger)
                   && feedback == old(feedback)
                && lastExtSN == old(lastExtSN) && payload[..len] == old(payload[..len]) && pktCtn == old(pktCtn)
    {
      var delta := timeNS - lastReport;
      if |extInfo| > 20 && mSSRC != 0 &&
         (delta >= REPORT_DELTA || |extInfo| > 100 || (marker && delta >= REPORT_DELTA_AFTER_MARK))
      {
        LeftoverTimes(extInfo, Collection(Sorting(extInfo), lastExtSN).consumed);
        SendReport();
        lastReport := timeNS;
      }
    }

    /** The part of Push that unwraps the number and appends the record. */
    method Record(sn: u16, timeNS: int)
      requires Idle() && ledger.pending == extInfo
      modifies this`cycles, this`extInfo, this`ledger, this`lastReport
      ensures Idle() && ledger.pending == extInfo
      ensures cycles == if Unwrapping.Crosses(lastSn, sn) then Add16(old(cycles), 1) else old(cycles)
      ensures old(Tiled(ledger, lastExtSN) && InOrder(sn, timeNS)) ==> Tiled(ledger, lastExtSN)
      ensures extInfo == old(Pending(sn, timeNS))
      ensures ledger.pushed == old(ledger).pushed + multiset{Arrival(old(NextExtSN(sn)), GoDiv(timeNS, 1000))}
      ensures ledger.reported == old(ledger).reported
      ensures lastReport == if old(lastReport) == 0 then timeNS else old(lastReport)
    {
      ghost var record := Arrival(NextExtSN(sn), GoDiv(timeNS, 1000));
      ghost var l := Ledger(ledger.reported, extInfo + [record], ledger.pushed + multiset{record});
      if Tiled(ledger, lastExtSN) && InOrder(sn, timeNS) {
        GoDivTruncates(timeNS, 1000);
        PushKeepsTiled(ledger, record, lastExtSN);
      }
      if sn < 0x0FFF && lastSn > 0xF000 {
        cycles := Add16(cycles, 1);
      }
      extInfo := extInfo + [Arrival(cycles * 0x1_0000 + sn, GoDiv(timeNS, 1000))];
      ledger := l;
      if lastReport == 0 {
        lastReport := timeNS;
      }
    }
  }

  lemma PushedTimes(infos: seq<Arrival>, number: u32, timeNS: int)
    requires AfterEpoch(infos) && AllReceived(infos) && timeNS >= 1000
    ensures var more := infos + [Arrival(number, GoDiv(timeNS, 1000))]; AfterEpoch(more) && AllReceived(more)
  {
    GoDivTruncates(timeNS, 1000);
  }

  /** Up to 100 pending arrivals need no condition. */
  lemma DueFits(infos: seq<Arrival>, more: seq<Arrival>, last: u32)
    requires |more| == |infos| + 1 && AfterEpoch(more)
    ensures |infos| < 100 ==> FitsArrays(NextPackets(more, last))
  {
    if |infos| < 100 {
      HundredFit(more, last);
    }
  }

  lemma SameElementsReceived(a: seq<Arrival>, b: seq<Arrival>)
    requires multiset(a) == multiset(b) && AllReceived(b)
    ensures AllReceived(a)
  {
    forall i | 0 <= i < |a| ensures a[i].timestamp != 0 {
      assert a[i] in multiset(b);
    }
  }

  lemma LeftoverTimes(infos: seq<Arrival>, consumed: nat)
    requires AfterEpoch(infos) && AllReceived(infos)
    ensures AfterEpoch(Leftover(Sorting(infos), consumed)) && AllReceived(Leftover(Sorting(infos), consumed))
  {
    PendingIsSorted(infos);
    SortingSorts(infos);
    SameElementsReceived(Sorting(infos), infos);
  }

  /** A collection with a packet has one that was received. */
  lemma CollectionReceived(sorted: seq<Arrival>, last: u32)
    requires Sorted(sorted) && AllReceived(sorted)
    ensures var pkts := Collection(sorted, last).pkts; pkts != [] ==> Received(pkts) > 0
  {
    var front, gap, a := CollectShape(sorted, Collected([], last, 0), if sorted == [] then 1 else Limit(|sorted|));
    if sorted != [] && Collection(sorted, last).pkts != [] {
      assert (front + gap + [a])[..|front + gap|] == front + gap;
      assert a.timestamp != 0;
    }
  }

  lemma NextReceived(infos: seq<Arrival>, last: u32)
    requires AllReceived(infos)
    ensures NextPackets(infos, last) != [] ==> Received(NextPackets(infos, last)) > 0
  {
    SortingSorts(infos);
    SameElementsReceived(Sorting(infos), infos);
    CollectionReceived(Sorting(infos), last);
  }

  /** A report collects nothing exactly when every pending record is below the last reported number. */
  lemma StaleIff(infos: seq<Arrival>, last: u32)
    ensures NextPackets(infos, last) == [] <==> AllLate(infos, last)
  {
    var sorted := Sorting(infos);
    SortingSorts(infos);
    NothingCollectedIff(sorted, Collected([], last, 0), Limit(|sorted|));
    if AllLate(infos, last) {
      SameLate(sorted, infos, last);
    }
    if AllLate(sorted, last) {
      SameLate(infos, sorted, last);
    }
  }

  lemma SameLate(a: seq<Arrival>, b: seq<Arrival>, last: u32)
    requires multiset(a) == multiset(b) && AllLate(b, last)
    ensures AllLate(a, last)
  {
    forall i | 0 <= i < |a| ensures a[i].extTSN < last {
      assert a[i] in multiset(b);
    }
  }

  /** A single record below the last reported number: no packet is collected, and it stays pending. */
  lemma LateRecordIsNotCollected()
    ensures NextPackets([Arrival(5, 1000)], 10) == [] && Collection(Sorting([Arrival(5, 1000)]), 10).last == 10
    ensures Leftover(Sorting([Arrival(5, 1000)]), Collection(Sorting([Arrival(5, 1000)]), 10).consumed)
            == Sorting([Arrival(5, 1000)])
  {
    StaleIff([Arrival(5, 1000)], 10);
    var sorted := Sorting([Arrival(5, 1000)]);
    SortingSorts([Arrival(5, 1000)]);
    SameLate(sorted, [Arrival(5, 1000)], 10);
    NothingCollectedIff(sorted, Collected([], 10, 0), Limit(|sorted|));
  }

  /** Where a counter going up meets a length going down. */
  lemma PoppedHalf(n: nat, i: nat)
    ensures Popped(n) <= n && (i < n - i <==> i < Popped(n))
  {}

  /** The loop that pads a packet to a multiple of four bytes; the last padding byte counts them. */
  method Pad(n: nat) returns (pLen: nat, padSize: byte, padding: seq<byte>)
    ensures padSize == PadSize(n) && pLen == n + padSize && padding == Padding(padSize)
  {
    pLen, padSize, padding := n, 0, [];
    PadReached(n, 0);
    while pLen % 4 != 0
      invariant pLen == n + padSize && padSize <= PadSize(n) && (pLen % 4 == 0 <==> padSize == PadSize(n))
      invariant |padding| == padSize && forall i :: 0 <= i < padSize ==> padding[i] == 0
      decreases PadSize(n) - padSize
    {
      padSize, pLen, padding := padSize + 1, pLen + 1, padding + [0];
      PadReached(n, padSize);
    }
    if padSize != 0 {
      padding := padding[padSize - 1 := padSize];
    }
  }

  method FillGap(tccPkts: seq<Arrival>, lo: u32, hi: u32) returns (r: seq<Arrival>)
    ensures r == tccPkts + Gap(lo, hi)
  {
    r := tccPkts;
    var j := lo;
    while j < hi
      invariant lo <= j && (j <= hi || j == lo) && r == tccPkts + Gap(lo, j)
    {
      r := r + [Arrival(j, 0)];
      j := j + 1;
    }
  }

  /** The next packet belongs to the report with header h, and what it adds fits the arrays. */
  ghost predicate CanTake(p: Pass, e: Encoder, h: Header, stat: Arrival) {
    var q := StepPass(p, stat);
    var f := Step(e, q.sts[|q.sts| - 1]);
    && |q.deltas| <= DELTAS_SIZE
    && HEADER_SIZE + 2 * |f.chunks| <= PAYLOAD_SIZE
    && (q.firstRecv ==> h.refTime == Low32(q.refTime))
    && (!q.firstRecv ==> f.chunks == [])
  }

  /** Some of the packets of a report need no more room than all of them. */
  lemma PrefixFits(pkts: seq<Arrival>, n: nat, h: Header)
    requires n <= |pkts| && FitsArrays(pkts) && h.refTime == Low32(RunPass(pkts).refTime)
    ensures var q := RunPass(pkts[..n]);
            var f := Encode(q.sts);
            && |q.deltas| <= DELTAS_SIZE
            && HEADER_SIZE + 2 * |f.chunks| <= PAYLOAD_SIZE
            && (q.firstRecv ==> h.refTime == Low32(q.refTime))
            && (!q.firstRecv ==> f.chunks == [])
  {
    var q := RunPass(pkts[..n]);
    PassPrefix(pkts, n);
    ChunksGrow(RunPass(pkts).sts, |q.sts|);
    assert RunPass(pkts).sts[..|q.sts|] == q.sts;
    if !q.firstRecv {
      NothingReceived(pkts[..n]);
    }
  }

  /** One more packet: the pass and the encoder take one step. */
  lemma StepOfPrefix(pkts: seq<Arrival>, i: nat, h: Header)
    requires i < |pkts| && FitsArrays(pkts) && h.refTime == Low32(RunPass(pkts).refTime)
    ensures var p, q := RunPass(pkts[..i]), RunPass(pkts[..i + 1]);
            && q == StepPass(p, pkts[i])
            && Encode(q.sts) == Step(Encode(p.sts), q.sts[|q.sts| - 1])
            && CanTake(p, Encode(p.sts), h, pkts[i])
  {
    var p, q := RunPass(pkts[..i]), RunPass(pkts[..i + 1]);
    PrefixFits(pkts, i + 1, h);
    assert pkts[..i + 1][..i] == pkts[..i];
    assert q.sts[..|q.sts| - 1] == p.sts;
    assert Encode(q.sts) == Step(Encode(p.sts), q.sts[|q.sts| - 1]);
  }

  // ---------------------------------------------------------------- what reaches the receiver

  /**
   A receiver knows which packets arrived, and when, to within 250us per received packet: from the
   reference time that it reads, which comes round every 2^24 times 64 ms.
   */
  ghost predicate Delivered(f: Feedback, pkts: seq<Arrival>) {
    && |f.sts| == |pkts|
    && (forall i :: 0 <= i < |pkts| ==> (f.sts[i] != NOT_RECEIVED <==> pkts[i].timestamp != 0))
    && exists rounds: int :: DeliveredIn(f, pkts, rounds)
  }

  ghost predicate DeliveredIn(f: Feedback, pkts: seq<Arrival>, rounds: int)
    requires |f.sts| == |pkts|
  {
    forall i :: 0 <= i < |pkts| && pkts[i].timestamp != 0 ==>
      Within(f.sts[..i + 1], f.deltas, (f.refTime + rounds * 0x100_0000) * 64000,
             pkts[i].timestamp, Received(pkts[..i + 1]))
  }

  lemma PassDelivers(f: Feedback, pkts: seq<Arrival>)
    requires Unsaturated(pkts) && f.sts == RunPass(pkts).sts && f.deltas == RunPass(pkts).deltas
    requires f.refTime == Low24(RunPass(pkts).refTime)
    ensures Delivered(f, pkts)
  {
    PassStatuses(pkts);
    var rounds := Low24Rounds(RunPass(pkts).refTime);
    forall i | 0 <= i < |pkts| && pkts[i].timestamp != 0
      ensures Within(f.sts[..i + 1], f.deltas, (f.refTime + rounds * 0x100_0000) * 64000,
                     pkts[i].timestamp, Received(pkts[..i + 1]))
    {
      DeltaAccuracy(pkts, i);
    }
    assert DeliveredIn(f, pkts, rounds);
  }

  lemma {:induction false} Low24Rounds(x: int) returns (rounds: int)
    ensures x == Low24(x) + rounds * 0x100_0000
    decreases if x < 0 then 0x100_0000 - x else x
  {
    if x < 0 {
      rounds := Low24Rounds(x + 0x100_0000);
      rounds := rounds - 1;
    } else if x >= 0x100_0000 {
      rounds := Low24Rounds(x - 0x100_0000);
      rounds := rounds + 1;
    } else {
      rounds := 0;
    }
  }

  /**
   Unless a run or the last vector was cut or a delta saturated, a receiver that parses a report
   gets its first number, its reference time modulo 2^24 and the fate of every packet of its list.
   */
  lemma ReportDelivers(sender: u32, media: u32, pktCtn: byte, pkts: seq<Arrival>)
    requires pkts != [] && FitsArrays(pkts) && |pkts| < 0x1_0000 && Unsaturated(pkts)
    requires RunsFit(RunPass(pkts).sts) && FlushKeeps(Encode(RunPass(pkts).sts))
    ensures var f := Parse(ReportPacket(sender, media, pktCtn, pkts));
            && f.Some? && Delivered(f.value, pkts)
            && f.value.baseSN == Low16(pkts[0].extTSN)
            && f.value.refTime == Low24(RunPass(pkts).refTime)
  {
    ReportParses(sender, media, pktCtn, pkts);
    PassDelivers(ReportContents(sender, media, pktCtn, pkts), pkts);
  }

  function ReportContents(sender: u32, media: u32, pktCtn: byte, pkts: seq<Arrival>): Feedback
    requires pkts != []
  {
    var p := RunPass(pkts);
    Feedback(sender, media, Low16(pkts[0].extTSN), Low24(p.refTime), pktCtn, p.sts, p.deltas)
  }

  lemma ReportParses(sender: u32, media: u32, pktCtn: byte, pkts: seq<Arrival>)
    requires pkts != [] && FitsArrays(pkts) && |pkts| < 0x1_0000
    requires RunsFit(RunPass(pkts).sts) && FlushKeeps(Encode(RunPass(pkts).sts))
    ensures Parse(ReportPacket(sender, media, pktCtn, pkts)) == Some(ReportContents(sender, media, pktCtn, pkts))
  {
    var p := RunPass(pkts);
    PassStatuses(pkts);
    PassLayout(pkts);
    SmallCount(|pkts|);
    FeedbackRoundTrip(ReportHeader(sender, media, pktCtn, pkts), p.sts, p.deltas);
    RefTimeBits(p.refTime);
  }

  lemma SmallCount(n: nat)
    requires n < 0x1_0000
    ensures Low16(n) == n
  {}

  lemma RefTimeBits(r: int)
    ensures Low24(Low32(r)) == Low24(r)
  {
    Low24OfLow32(r);
  }

  // ---------------------------------------------------------------- a report, byte by byte

  /**
   The report of a single arrival, as section 3.1 of the draft lays it out: version 2 with padding and
   format 15, packet type 205, six words, the two SSRCs, base number, one packet, 24 bits of reference
   time in units of 64 ms, the feedback count, a run of one "small delta", the delta in units of
   250us, and one byte of padding.
   */
  lemma OneArrivalReport(sender: u32, media: u32, pktCtn: byte, a: Arrival)
    requires 0 < a.timestamp < 64000 * 0x100_0000
    ensures FitsArrays([a])
    ensures var ref, delta := a.timestamp / 64000, a.timestamp % 64000 / 250;
            var header := Be32(sender) + Be32(media) + Be16(Low16(a.extTSN)) + [0, 1] + Be32(ref * 0x100 + pktCtn);
            ReportPacket(sender, media, pktCtn, [a]) == [0xAF, 205, 0, 5] + (header + [0x20, 0x01]) + [delta] + [1]
  {
    var ref, delta := a.timestamp / 64000, a.timestamp % 64000 / 250;
    OneArrival(a);
    OneArrivalChunks(a);
    OneArrivalHeader(sender, media, pktCtn, a, ref);
    var header := HeaderBytes(ReportHeader(sender, media, pktCtn, [a]));
    assert ReportPacket(sender, media, pktCtn, [a]) == Packet(header + [0x20, 0x01], [delta]);
    SmallPacket(header + [0x20, 0x01], [delta]);
  }

  lemma OneArrivalChunks(a: Arrival)
    requires RunPass([a]).sts == [SMALL_DELTA]
    ensures |ReportChunks([a])| == 1 && ChunksBytes(ReportChunks([a])) == [0x20, 0x01]
  {
    OneSmallDelta();
    var c := RunChunk(SMALL_DELTA, 1);
    assert ReportChunks([a]) == [c] && [c][..0] == [];
    assert ChunksBytes([c]) == ChunksBytes([]) + ChunkBytes(c);
  }

  lemma OneArrivalHeader(sender: u32, media: u32, pktCtn: byte, a: Arrival, ref: nat)
    requires RunPass([a]).refTime == ref < 0x100_0000
    ensures HeaderBytes(ReportHeader(sender, media, pktCtn, [a]))
            == Be32(sender) + Be32(media) + Be16(Low16(a.extTSN)) + [0, 1] + Be32(ref * 0x100 + pktCtn)
  {
    SmallClock(ref);
    var h := ReportHeader(sender, media, pktCtn, [a]);
    assert h == Header(sender, media, Low16(a.extTSN), 1, ref, pktCtn);
    assert ClockWord(h) == ref * 0x100 + pktCtn;
    assert Be16(1) == [0, 1];
  }

  /** A packet of 23 bytes before padding. */
  lemma SmallPacket(payload: seq<byte>, deltas: seq<byte>)
    requires |payload| == 18 && |deltas| == 1
    ensures Packet(payload, deltas) == [0xAF, 205, 0, 5] + payload + deltas + [1]
  {
    PadIsModulo(23);
    PadIsModulo(24);
    assert Be16(5) == [0, 5];
  }

  lemma SmallClock(ref: nat)
    requires ref < 0x100_0000
    ensures Low24(Low32(ref)) == ref && Low32(ref) == ref
  {}

  /** One packet with a small delta is a run of one: 0, 01, and 13 bits of length. */
  lemma OneSmallDelta()
    ensures Finish(Encode([SMALL_DELTA])) == [RunChunk(1, 1)] && ChunkBytes(RunChunk(1, 1)) == [0x20, 0x01]
  {
    assert [SMALL_DELTA][..0] == [];
    assert Encode([SMALL_DELTA]) == Encoder([], [SMALL_DELTA], true, SMALL_DELTA, SMALL_DELTA);
    RunChunkFields(1, 1);
    RunOfOne();
  }

  lemma RunOfOne()
    ensures ChunkBytes(RunChunk(1, 1)) == [0x20, 0x01]
  {
    var c := RunChunk(1, 1);
    RunChunkFields(1, 1);
    assert Pow2(1) == 2;
    HighBitsClear(13, 1, 1);
    assert c[3..] == Zeros(12) + [true];
    assert forall i :: 3 <= i < 16 ==> c[i] == c[3..][i - 3];
    EightBits(c[..8]);
    EightBits(c[8..]);
  }
}
