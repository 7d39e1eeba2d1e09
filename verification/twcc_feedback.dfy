/**
 The feedback packet of the transport-wide congestion control responder, byte by byte, and a
 parser for it written from section 3.1 of draft-holmer-rmcat-transport-wide-cc-extensions-01
 and the RTCP header of section 6.4.1 of RFC 3550.
 */
module TwccFeedback {
  import opened Words
  import opened TwccChunks
  import opened TwccEncoder
  import opened TwccDeltas

  const FORMAT_TCC: byte := 15
  const TYPE_TRANSPORT_SPECIFIC_FEEDBACK: byte := 205
  const HEADER_SIZE := 16

  /** The fields that writeHeader puts in front of the chunks. */
  datatype Header = Header(sender: u32, media: u32, baseSN: u16, count: u16, refTime: u32, pktCtn: byte)

  /** refTime<<8 | pktCtn on uint32. */
  function ClockWord(h: Header): u32 {
    Low24Step(h.refTime);
    Low24(h.refTime) * 0x100 + h.pktCtn
  }

  /** writeHeader: refTime<<8 | pktCtn shares one word, so the reference time keeps 24 bits. */
  function HeaderBytes(h: Header): (r: seq<byte>)
    ensures |r| == HEADER_SIZE
  {
    Be32(h.sender) + Be32(h.media) + Be16(h.baseSN) + Be16(h.count) + Be32(ClockWord(h))
  }

  lemma {:induction false} NumBound(bits: seq<bool>)
    ensures Num(bits) < Pow2(|bits|)
  {
    if bits != [] {
      NumBound(bits[..|bits| - 1]);
    }
  }

  function ByteOf(bits: seq<bool>): byte
    requires |bits| == 8
  {
    NumBound(bits);
    Pow2Facts();
    Num(bits)
  }

  /** binary.BigEndian.PutUint16 of a chunk. */
  function ChunkBytes(c: Chunk): (r: seq<byte>)
    ensures |r| == 2
  {
    [ByteOf(c[..8]), ByteOf(c[8..])]
  }

  function ChunkOf(hi: byte, lo: byte): Chunk {
    BitsOf(8, hi) + BitsOf(8, lo)
  }

  lemma ChunkBytesRoundTrip(c: Chunk)
    ensures ChunkOf(ChunkBytes(c)[0], ChunkBytes(c)[1]) == c
  {
    BitsOfNum(c[..8]);
    BitsOfNum(c[8..]);
  }

  function ChunksBytes(cs: seq<Chunk>): (r: seq<byte>)
    ensures |r| == 2 * |cs|
  {
    if cs == [] then [] else ChunksBytes(cs[..|cs| - 1]) + ChunkBytes(cs[|cs| - 1])
  }

  lemma ChunksBytesAppend(cs: seq<Chunk>, c: Chunk)
    ensures ChunksBytes(cs + [c]) == ChunksBytes(cs) + ChunkBytes(c)
  {
    assert (cs + [c])[..|cs|] == cs;
  }

  /** How many padding bytes bring a packet to a multiple of four. */
  function PadSize(n: nat): (pad: nat)
    ensures pad < 4
  {
    if n >= 4 then PadSize(n - 4) else if n == 0 then 0 else 4 - n
  }

  /** How many words of four bytes fit. */
  function Quarters(n: nat): (q: nat)
    ensures 4 * q <= n
  {
    if n >= 4 then Quarters(n - 4) + 1 else 0
  }

  lemma {:induction false} PadFills(n: nat)
    ensures 4 * Quarters(n + PadSize(n)) == n + PadSize(n)
  {
    if n >= 4 {
      PadFills(n - 4);
    }
  }

  /** The loop that pads, and the division by four, as the code writes them. */
  lemma {:induction false} PadIsModulo(n: nat)
    ensures PadSize(n) == (4 - n % 4) % 4 && Quarters(n) == n / 4
  {
    if n >= 4 {
      PadIsModulo(n - 4);
    }
  }

  lemma PadReached(n: nat, k: nat)
    requires k <= PadSize(n)
    ensures (n + k) % 4 == 0 <==> k == PadSize(n)
  {
    PadIsModulo(n);
  }

  /** pkt[len(pkt)-1] = padSize, over zero bytes. */
  function Padding(n: nat): (r: seq<byte>)
    requires n < 4
    ensures |r| == n && forall i :: 0 <= i < n ==> r[i] == if i == n - 1 then n else 0
  {
    if n == 0 then [] else if n == 1 then [1] else if n == 2 then [0, 2] else [0, 0, 3]
  }

  /** The packet around a payload (header and chunks) and a delta area. */
  function Packet(payload: seq<byte>, deltas: seq<byte>): seq<byte>
    requires |payload| + |deltas| < 0x1_0000
  {
    var size := 4 + |payload| + |deltas|;
    var pad := PadSize(size);
    [0x80 + (if pad != 0 then 0x20 else 0) + FORMAT_TCC, TYPE_TRANSPORT_SPECIFIC_FEEDBACK]
    + Be16(Quarters(size + pad) - 1) + payload + deltas + Padding(pad)
  }

  // ---------------------------------------------------------------- the receiver's parser

  datatype Option<T> = None | Some(value: T)

  /** What a receiver learns from a packet. */
  datatype Feedback = Feedback(sender: u32, media: u32, baseSN: u16, refTime: nat, pktCtn: byte,
                               sts: seq<Symbol>, deltas: seq<byte>)

  /** Reads chunks until they have described n packets; returns their symbols and the bytes behind them. */
  function ReadChunks(decode: Chunk -> seq<Symbol>, bytes: seq<byte>, n: int): Option<(seq<Symbol>, seq<byte>)> {
    if n <= 0 then Some(([], bytes))
    else if |bytes| < 2 then None
    else
      var symbols := decode(ChunkOf(bytes[0], bytes[1]));
      match ReadChunks(decode, bytes[2..], n - |symbols|)
      case None => None
      case Some(rest) => Some((symbols + rest.0, rest.1))
  }

  function ParseBody(body: seq<byte>): Option<Feedback> {
    ParseBodyWith(DecodeChunk, body)
  }

  function ParseBodyWith(decode: Chunk -> seq<Symbol>, body: seq<byte>): Option<Feedback> {
    if |body| < HEADER_SIZE then None
    else
      var count := FromBe16(body[10], body[11]);
      var clock := FromBe32(body[12..16]);
      match ReadChunks(decode, body[HEADER_SIZE..], count)
      case None => None
      case Some((symbols, rest)) =>
        if |symbols| < count || |rest| < DeltaSize(symbols[..count]) then None
        else Some(Feedback(FromBe32(body[0..4]), FromBe32(body[4..8]), FromBe16(body[8], body[9]),
                           High8(clock), Low8(clock), symbols[..count], rest[..DeltaSize(symbols[..count])]))
  }

  function Parse(pkt: seq<byte>): Option<Feedback> {
    if |pkt| < 4 || !(0x80 <= pkt[0] < 0xC0) then None
    else if Drop(Drop(pkt[0], 0x80), 0x20) != FORMAT_TCC || pkt[1] != TYPE_TRANSPORT_SPECIFIC_FEEDBACK then None
    else if 4 * (FromBe16(pkt[2], pkt[3]) + 1) != |pkt| then None
    else
      var pad := if Drop(pkt[0], 0x80) >= 0x20 then pkt[|pkt| - 1] else 0;
      if 4 + pad > |pkt| then None else ParseBody(pkt[4..|pkt| - pad])
  }

  // ---------------------------------------------------------------- parsing undoes writing

  lemma {:induction false} ChunksBytesCons(c: Chunk, cs: seq<Chunk>)
    ensures ChunksBytes([c] + cs) == ChunkBytes(c) + ChunksBytes(cs)
  {
    if cs == [] {
      ChunksBytesAppend([], c);
    } else {
      var init := cs[..|cs| - 1];
      ChunksBytesCons(c, init);
      assert ([c] + cs)[..|cs|] == [c] + init;
    }
  }

  /** All chunks but the last one fall short of n packets, and all of them together do not. */
  ghost predicate JustEnough(decode: Chunk -> seq<Symbol>, cs: seq<Chunk>, n: int) {
    if cs == [] then n <= 0
    else |Flatten(decode, cs[..|cs| - 1])| < n <= |Flatten(decode, cs)|
  }

  lemma FlattenCons(decode: Chunk -> seq<Symbol>, c: Chunk, rest: seq<Chunk>)
    ensures Flatten(decode, [c] + rest) == decode(c) + Flatten(decode, rest)
  {
    FlattenAppend(decode, [], c);
    assert [] + [c] == [c];
    FlattenConcat(decode, [c], rest);
  }

  lemma JustEnoughTail(decode: Chunk -> seq<Symbol>, c: Chunk, rest: seq<Chunk>, n: int)
    requires JustEnough(decode, [c] + rest, n)
    ensures n > 0 && JustEnough(decode, rest, n - |decode(c)|)
  {
    FlattenCons(decode, c, rest);
    if rest != [] {
      FlattenCons(decode, c, rest[..|rest| - 1]);
      assert ([c] + rest)[..|rest|] == [c] + rest[..|rest| - 1];
    }
  }

  lemma {:induction false} ReadBackChunks(decode: Chunk -> seq<Symbol>, cs: seq<Chunk>, tail: seq<byte>, n: int)
    requires JustEnough(decode, cs, n)
    ensures ReadChunks(decode, ChunksBytes(cs) + tail, n) == Some((Flatten(decode, cs), tail))
    decreases |cs|
  {
    if cs == [] {
      assert ChunksBytes(cs) + tail == tail;
    } else {
      var c, rest := cs[0], cs[1..];
      assert cs == [c] + rest;
      JustEnoughTail(decode, c, rest, n);
      FlattenCons(decode, c, rest);
      ChunksBytesCons(c, rest);
      ChunkBytesRoundTrip(c);
      ReadBackChunks(decode, rest, tail, n - |decode(c)|);
      FrontOf(ChunkBytes(c), ChunksBytes(rest), tail);
      ReadOne(decode, ChunkBytes(c) + ChunksBytes(rest) + tail, n, c, ChunksBytes(rest) + tail);
    }
  }

  lemma FrontOf(a: seq<byte>, b: seq<byte>, tail: seq<byte>)
    requires |a| == 2
    ensures var bytes := a + b + tail; bytes[0] == a[0] && bytes[1] == a[1] && bytes[2..] == b + tail
  {}

  lemma ReadOne(decode: Chunk -> seq<Symbol>, bytes: seq<byte>, n: int, c: Chunk, more: seq<byte>)
    requires n > 0 && |bytes| >= 2 && ChunkOf(bytes[0], bytes[1]) == c && bytes[2..] == more
    ensures ReadChunks(decode, bytes, n) ==
            match ReadChunks(decode, more, n - |decode(c)|)
            case None => None
            case Some(rest) => Some((decode(c) + rest.0, rest.1))
  {}

  /** The fixed fields are where the parser looks for them. */
  ghost predicate Starts(body: seq<byte>, h: Header, more: seq<byte>) {
    && |body| >= HEADER_SIZE && body[HEADER_SIZE..] == more
    && FromBe32(body[0..4]) == h.sender && FromBe32(body[4..8]) == h.media
    && FromBe16(body[8], body[9]) == h.baseSN && FromBe16(body[10], body[11]) == h.count
    && FromBe32(body[12..16]) == ClockWord(h)
  }

  lemma HeaderFields(h: Header, more: seq<byte>)
    ensures Starts(HeaderBytes(h) + more, h, more)
  {
    var body := HeaderBytes(h) + more;
    Be32RoundTrip(h.sender);
    Be32RoundTrip(h.media);
    Be32RoundTrip(ClockWord(h));
    Be16RoundTrip(h.baseSN);
    Be16RoundTrip(h.count);
    assert body[0..4] == Be32(h.sender);
    assert body[4..8] == Be32(h.media);
    assert body[8..10] == Be16(h.baseSN);
    assert body[10..12] == Be16(h.count);
    assert body[12..16] == Be32(ClockWord(h));
  }

  lemma ClockFields(h: Header)
    ensures High8(ClockWord(h)) == Low24(h.refTime) && Low8(ClockWord(h)) == h.pktCtn
  {
    High8Of(Low24(h.refTime), h.pktCtn);
  }

  /** The parser on a body whose parts are known. */
  lemma ParseParts(decode: Chunk -> seq<Symbol>, body: seq<byte>, h: Header, more: seq<byte>, symbols: seq<Symbol>,
                   sts: seq<Symbol>, deltas: seq<byte>)
    requires Starts(body, h, more) && ReadChunks(decode, more, h.count) == Some((symbols, deltas))
    requires |sts| == h.count && sts <= symbols && |deltas| == DeltaSize(sts)
    ensures ParseBodyWith(decode, body)
            == Some(Feedback(h.sender, h.media, h.baseSN, Low24(h.refTime), h.pktCtn, sts, deltas))
  {
    WholeSlices(symbols, sts, deltas);
    ClockFields(h);
  }

  lemma ParseBodyWithOf(decode: Chunk -> seq<Symbol>, h: Header, cs: seq<Chunk>, deltas: seq<byte>, sts: seq<Symbol>)
    requires |sts| == h.count && JustEnough(decode, cs, |sts|) && sts <= Flatten(decode, cs)
    requires |deltas| == DeltaSize(sts)
    ensures ParseBodyWith(decode, HeaderBytes(h) + (ChunksBytes(cs) + deltas))
         == Some(Feedback(h.sender, h.media, h.baseSN, Low24(h.refTime), h.pktCtn, sts, deltas))
  {
    var more := ChunksBytes(cs) + deltas;
    HeaderFields(h, more);
    ReadBackChunks(decode, cs, deltas, |sts|);
    ParseParts(decode, HeaderBytes(h) + more, h, more, Flatten(decode, cs), sts, deltas);
  }

  lemma ParseBodyOf(h: Header, cs: seq<Chunk>, deltas: seq<byte>, sts: seq<Symbol>)
    requires |sts| == h.count && JustEnough(DecodeChunk, cs, |sts|) && sts <= DecodeChunks(cs)
    requires |deltas| == DeltaSize(sts)
    ensures ParseBody(HeaderBytes(h) + ChunksBytes(cs) + deltas)
         == Some(Feedback(h.sender, h.media, h.baseSN, Low24(h.refTime), h.pktCtn, sts, deltas))
  {
    assert HeaderBytes(h) + ChunksBytes(cs) + deltas == HeaderBytes(h) + (ChunksBytes(cs) + deltas);
    ParseBodyWithOf(DecodeChunk, h, cs, deltas, sts);
  }

  lemma WholeSlices(symbols: seq<Symbol>, sts: seq<Symbol>, deltas: seq<byte>)
    requires sts <= symbols
    ensures symbols[..|sts|] == sts && deltas[..|deltas|] == deltas
  {}

  lemma PacketFrame(payload: seq<byte>, deltas: seq<byte>)
    requires |payload| + |deltas| <= 0xFFF0
    ensures var size := 4 + |payload| + |deltas|;
            var pad := PadSize(size);
            var pkt := Packet(payload, deltas);
            && |pkt| == size + pad
            && pkt[0] == 0x80 + (if pad != 0 then 0x20 else 0) + FORMAT_TCC
            && pkt[1] == TYPE_TRANSPORT_SPECIFIC_FEEDBACK
            && 4 * (FromBe16(pkt[2], pkt[3]) + 1) == |pkt|
            && (pad != 0 ==> pkt[|pkt| - 1] == pad)
            && pkt[4..|pkt| - pad] == payload + deltas
  {
    var size := 4 + |payload| + |deltas|;
    var pad := PadSize(size);
    var front := [0x80 + (if pad != 0 then 0x20 else 0) + FORMAT_TCC, TYPE_TRANSPORT_SPECIFIC_FEEDBACK]
                 + Be16(Quarters(size + pad) - 1);
    PadFills(size);
    Be16RoundTrip(Quarters(size + pad) - 1);
    assert Packet(payload, deltas) == front + (payload + deltas) + Padding(pad);
    assert pad != 0 ==> Padding(pad)[pad - 1] == pad;
  }

  lemma ParseOfPacket(payload: seq<byte>, deltas: seq<byte>)
    requires |payload| + |deltas| <= 0xFFF0
    ensures Parse(Packet(payload, deltas)) == ParseBody(payload + deltas)
  {
    PacketFrame(payload, deltas);
    ParseFrame(Packet(payload, deltas), PadSize(4 + |payload| + |deltas|), payload + deltas);
  }

  lemma ParseFrame(pkt: seq<byte>, pad: nat, body: seq<byte>)
    requires |pkt| >= 4 + pad
    requires pkt[0] == 0x80 + (if pad != 0 then 0x20 else 0) + FORMAT_TCC
    requires pkt[1] == TYPE_TRANSPORT_SPECIFIC_FEEDBACK && 4 * (FromBe16(pkt[2], pkt[3]) + 1) == |pkt|
    requires (pad != 0 ==> pkt[|pkt| - 1] == pad) && pkt[4..|pkt| - pad] == body
    ensures Parse(pkt) == ParseBody(body)
  {}

  // ---------------------------------------------------------------- every chunk is needed

  ghost predicate Busy(cs: seq<Chunk>) {
    forall i :: 0 <= i < |cs| ==> DecodeChunk(cs[i]) != []
  }

  lemma AppendBusy(cs: seq<Chunk>, c: Chunk)
    requires Busy(cs) && DecodeChunk(c) != []
    ensures Busy(cs + [c])
  {}

  lemma CloseRunBusy(e: Encoder, s: Symbol)
    requires Inv(e) && RunFits(e, s) && Busy(e.chunks)
    ensures Busy(CloseRun(e, s).chunks)
  {
    if EndsLongRun(e, s) {
      RunOfPending(e);
      AppendBusy(e.chunks, RunChunk(e.last, Low16(|e.pending|)));
    }
  }

  lemma FlushFullBusy(e: Encoder)
    requires Busy(e.chunks) && MaxOf(e.max, e.pending)
    requires !e.same && e.max != LARGE_DELTA ==> |e.pending| <= 14
    requires Known(e.pending)
    ensures Busy(FlushFull(e).chunks)
  {
    if !e.same && e.max == LARGE_DELTA && |e.pending| > 6 {
      var v := VectorChunk(TWO_BIT, e.pending[..7]);
      FullVector(TWO_BIT, e.pending[..7]);
      AppendBusy(e.chunks, v);
      RescanKeeps(e.(chunks := e.chunks + [v], pending := e.pending[7..]), |e.pending| - 7);
    } else if !e.same && |e.pending| > 13 {
      FullVector(ONE_BIT, e.pending[..14]);
      AppendBusy(e.chunks, VectorChunk(ONE_BIT, e.pending[..14]));
    }
  }

  lemma StepBusy(e: Encoder, s: Symbol)
    requires Inv(e) && s != WITHOUT_DELTA && RunFits(e, s) && Busy(e.chunks)
    ensures Busy(Step(e, s).chunks)
  {
    CloseRunBusy(e, s);
    var c := CloseRun(e, s);
    MaxAppend(c.max, c.pending, s);
    FlushFullBusy(Append(c, s));
  }

  lemma {:induction false} EncodeBusy(sts: seq<Symbol>)
    requires Known(sts) && RunsFit(sts)
    ensures Busy(Encode(sts).chunks)
  {
    if sts != [] {
      var init := sts[..|sts| - 1];
      EncodeBusy(init);
      EncodeInv(init);
      StepBusy(Encode(init), sts[|sts| - 1]);
    }
  }

  lemma BusyIsJustEnough(cs: seq<Chunk>)
    requires Busy(cs)
    ensures JustEnough(DecodeChunk, cs, |DecodeChunks(cs)|)
  {
    if cs != [] {
      var init, c := cs[..|cs| - 1], cs[|cs| - 1];
      DecodeAppend(init, c);
      assert cs == init + [c];
    }
  }

  lemma FinishIsJustEnough(sts: seq<Symbol>)
    requires Known(sts) && RunsFit(sts) && sts <= Reported(sts)
    ensures JustEnough(DecodeChunk, Finish(Encode(sts)), |sts|)
  {
    var e := Encode(sts);
    LosslessWhenRunsFit(sts);
    if e.pending == [] {
      EncodeBusy(sts);
      BusyIsJustEnough(e.chunks);
    } else {
      assert Finish(e)[..|Finish(e)| - 1] == e.chunks;
    }
  }

  /**
   End to end: whenever the chunks describe the statuses faithfully, a receiver that parses
   the packet gets the header fields, the status of every packet and the delta area back.
   */
  lemma FeedbackRoundTrip(h: Header, sts: seq<Symbol>, deltas: seq<byte>)
    requires Known(sts) && |sts| == h.count && |deltas| == DeltaSize(sts)
    requires RunsFit(sts) && FlushKeeps(Encode(sts))
    requires HEADER_SIZE + 2 * |Finish(Encode(sts))| + |deltas| <= 0xFFF0
    ensures Parse(Packet(HeaderBytes(h) + ChunksBytes(Finish(Encode(sts))), deltas))
         == Some(Feedback(h.sender, h.media, h.baseSN, Low24(h.refTime), h.pktCtn, sts, deltas))
  {
    ReportIsFaithful(sts);
    FinishIsJustEnough(sts);
    var cs := Finish(Encode(sts));
    ParseOfPacket(HeaderBytes(h) + ChunksBytes(cs), deltas);
    ParseBodyOf(h, cs, deltas, sts);
  }
}
