/**
 Packet status chunks of a transport-wide congestion control report: the two bit-packed
 forms that the responder writes, and the decoder that sections 3.1.3 and 3.1.4 of
 draft-holmer-rmcat-transport-wide-cc-extensions-01 prescribe for a receiver.
 */
module TwccChunks {
  import opened Words

  type Symbol = x: int | 0 <= x < 4

  /** A uint16 chunk, most significant bit first. */
  type Chunk = b: seq<bool> | |b| == 16 witness Zeros(16)

  const NOT_RECEIVED: Symbol := 0
  const SMALL_DELTA: Symbol := 1
  const LARGE_DELTA: Symbol := 2
  const WITHOUT_DELTA: Symbol := 3

  const ONE_BIT := 0
  const TWO_BIT := 1

  const MAX_RUN := 0x1FFF
  const ONE_BIT_CAPACITY: nat := 14
  const TWO_BIT_CAPACITY: nat := 7

  const WORD: nat := 16

  // ---------------------------------------------------------------- the receiver's decoder

  function Repeat(s: Symbol, n: nat): (r: seq<Symbol>)
    ensures |r| == n && forall i :: 0 <= i < n ==> r[i] == s
  {
    if n == 0 then [] else Repeat(s, n - 1) + [s]
  }

  function OneBitSymbol(c: Chunk, i: nat): Symbol
    requires i < 14
  {
    if c[2 + i] then SMALL_DELTA else NOT_RECEIVED
  }

  function TwoBitSymbol(c: Chunk, i: nat): Symbol
    requires i < 7
  {
    (if c[2 + 2 * i] then 2 else 0) + (if c[3 + 2 * i] then 1 else 0)
  }

  function OneBitSymbols(c: Chunk, n: nat): (r: seq<Symbol>)
    requires n <= ONE_BIT_CAPACITY
    ensures |r| == n && forall i :: 0 <= i < n ==> r[i] == OneBitSymbol(c, i)
  {
    if n == 0 then [] else OneBitSymbols(c, n - 1) + [OneBitSymbol(c, n - 1)]
  }

  function TwoBitSymbols(c: Chunk, n: nat): (r: seq<Symbol>)
    requires n <= TWO_BIT_CAPACITY
    ensures |r| == n && forall i :: 0 <= i < n ==> r[i] == TwoBitSymbol(c, i)
  {
    if n == 0 then [] else TwoBitSymbols(c, n - 1) + [TwoBitSymbol(c, n - 1)]
  }

  function DecodeChunk(c: Chunk): seq<Symbol> {
    if !c[0] then Repeat((if c[1] then 2 else 0) + (if c[2] then 1 else 0), Num(c[3..]))
    else if !c[1] then OneBitSymbols(c, ONE_BIT_CAPACITY)
    else TwoBitSymbols(c, TWO_BIT_CAPACITY)
  }

  /** The symbols of several chunks in a row, for a given reading of one chunk. */
  function Flatten(decode: Chunk -> seq<Symbol>, cs: seq<Chunk>): seq<Symbol> {
    if cs == [] then [] else Flatten(decode, cs[..|cs| - 1]) + decode(cs[|cs| - 1])
  }

  function DecodeChunks(cs: seq<Chunk>): seq<Symbol> {
    Flatten(DecodeChunk, cs)
  }

  lemma FlattenAppend(decode: Chunk -> seq<Symbol>, cs: seq<Chunk>, c: Chunk)
    ensures Flatten(decode, cs + [c]) == Flatten(decode, cs) + decode(c)
  {
    assert (cs + [c])[..|cs|] == cs;
  }

  lemma {:induction false} FlattenConcat(decode: Chunk -> seq<Symbol>, a: seq<Chunk>, b: seq<Chunk>)
    ensures Flatten(decode, a + b) == Flatten(decode, a) + Flatten(decode, b)
  {
    if b == [] {
      assert a + b == a;
    } else {
      FlattenConcat(decode, a, b[..|b| - 1]);
      assert (a + b)[..|a + b| - 1] == a + b[..|b| - 1];
    }
  }

  lemma DecodeAppend(cs: seq<Chunk>, c: Chunk)
    ensures DecodeChunks(cs + [c]) == DecodeChunks(cs) + DecodeChunk(c)
  {
    FlattenAppend(DecodeChunk, cs, c);
  }

  // ---------------------------------------------------------------- the responder's encoder

  /** setNBitsOfUint16: the low `size` bits of a value are ORed in from bit `start`, counted from the top. */
  function SetNBits(src: Chunk, size: nat, start: nat, val: nat): Chunk {
    if start + size > 16 then Zeros(16)
    else OrBits(src, Zeros(start) + BitsOf(size, val) + Zeros(16 - size - start))
  }

  /** The same, as the masking, the shift and the OR that compute it. */
  lemma SetNBitsIsShiftedOr(src: Chunk, size: nat, start: nat, val: nat)
    requires start + size <= 16
    ensures var masked := Zeros(16 - size) + BitsOf(WORD, val)[16 - size..];
            SetNBits(src, size, start, val) == OrBits(src, Shl(masked, 16 - size - start))
  {
    LowBits(16, size, val);
    var masked := Zeros(16 - size) + BitsOf(size, val);
    assert Shl(masked, 16 - size - start) == Zeros(start) + BitsOf(size, val) + Zeros(16 - size - start);
  }

  /** createStatusSymbolChunk, for the i-th symbol of a vector. */
  function CreateSymbol(c: Chunk, symbolSize: nat, symbol: Symbol, i: nat): Chunk {
    SetNBits(c, symbolSize + 1, (symbolSize + 1) * i + 2, symbol)
  }

  /** The chunk after createStatusSymbolChunk was called for each symbol in turn. */
  function FilledSymbols(symbolSize: nat, syms: seq<Symbol>): Chunk {
    if syms == [] then Zeros(16)
    else CreateSymbol(FilledSymbols(symbolSize, syms[..|syms| - 1]), symbolSize, syms[|syms| - 1], |syms| - 1)
  }

  /** writeStatusSymbolChunk's two header bits. */
  function SealVector(c: Chunk, symbolSize: nat): Chunk {
    SetNBits(SetNBits(c, 1, 0, 1), 1, 1, symbolSize)
  }

  function VectorChunk(symbolSize: nat, syms: seq<Symbol>): Chunk {
    SealVector(FilledSymbols(symbolSize, syms), symbolSize)
  }

  /** symbol<<13 | runLength on uint16, for any run length the caller passes. */
  function RunChunk(symbol: Symbol, runLength: u16): Chunk {
    OrBits(Shl(BitsOf(WORD, symbol), 13), BitsOf(WORD, runLength))
  }

  // ---------------------------------------------------------------- decoding undoes encoding

  /** The symbol's two bits, shifted to where the decoder looks for them. */
  lemma ShiftedSymbol(symbol: Symbol)
    ensures Shl(BitsOf(WORD, symbol), 13) == [false, symbol / 2 == 1, symbol % 2 == 1] + Zeros(13)
  {
    LowBits(WORD, 3, symbol);
    assert BitsOf(3, symbol) == [false, symbol / 2 == 1, symbol % 2 == 1];
  }

  /** The symbol's bits and the run's low 13 bits do not meet; a run of 2^15 or more reaches the type bit. */
  lemma RunChunkFields(symbol: Symbol, runLength: u16)
    ensures var c := RunChunk(symbol, runLength);
            && c[3..] == BitsOf(13, runLength)
            && (runLength < 0x8000 ==> !c[0])
            && (runLength <= MAX_RUN ==> c[1] == (symbol / 2 == 1) && c[2] == (symbol % 2 == 1))
  {
    ShiftedSymbol(symbol);
    LowBits(WORD, 13, runLength);
    Pow2Facts();
    if runLength < 0x8000 {
      HighBitsClear(WORD, 15, runLength);
    }
    if runLength <= MAX_RUN {
      HighBitsClear(WORD, 13, runLength);
    }
  }

  /** However long the run was, its low 13 bits are the length that a receiver reads. */
  lemma RunLengthRead(runLength: u16)
    ensures Num(BitsOf(13, runLength)) == runLength % 0x2000
  {
    NumOfBitsOf(13, runLength);
    Pow2Facts();
  }

  lemma RunDecodes(c: Chunk, symbol: Symbol, runLength: nat)
    requires symbol != WITHOUT_DELTA
    requires !c[0] && c[1] == (symbol / 2 == 1) && c[2] == (symbol % 2 == 1) && Num(c[3..]) == runLength
    ensures DecodeChunk(c) == Repeat(symbol, runLength)
  {}

  lemma DecodedLength(c: Chunk)
    ensures |DecodeChunk(c)| == if !c[0] then Num(c[3..]) else if !c[1] then 14 else 7
  {}

  /** A run-length chunk says what it was given exactly when the run fits its 13 bits. */
  lemma ShortRunRoundTrip(symbol: Symbol, runLength: u16)
    requires symbol != WITHOUT_DELTA && runLength <= MAX_RUN
    ensures DecodeChunk(RunChunk(symbol, runLength)) == Repeat(symbol, runLength)
  {
    RunChunkFields(symbol, runLength);
    RunLengthRead(runLength);
    RunDecodes(RunChunk(symbol, runLength), symbol, runLength);
  }

  lemma LongRunIsShortened(symbol: Symbol, runLength: u16)
    requires symbol != WITHOUT_DELTA && runLength > MAX_RUN
    ensures |DecodeChunk(RunChunk(symbol, runLength))| + MAX_RUN < runLength
  {
    RunChunkFields(symbol, runLength);
    RunLengthRead(runLength);
    DecodedLength(RunChunk(symbol, runLength));
  }

  /** A run-length chunk says what it was given exactly when the run fits its 13 bits. */
  lemma RunChunkRoundTrip(symbol: Symbol, runLength: u16)
    requires symbol != WITHOUT_DELTA
    ensures DecodeChunk(RunChunk(symbol, runLength)) == Repeat(symbol, runLength) <==> runLength <= MAX_RUN
  {
    if runLength <= MAX_RUN {
      ShortRunRoundTrip(symbol, runLength);
    } else {
      LongRunIsShortened(symbol, runLength);
    }
  }

  ghost predicate OneBitFilled(c: Chunk, syms: seq<Symbol>)
    requires |syms| <= 14
  {
    && !c[0] && !c[1]
    && (forall i :: 2 + |syms| <= i < 16 ==> !c[i])
    && (forall i :: 0 <= i < |syms| ==> OneBitSymbol(c, i) == syms[i])
  }

  lemma PlaceOneBit(c: Chunk, syms: seq<Symbol>, s: Symbol)
    requires |syms| < ONE_BIT_CAPACITY && OneBitFilled(c, syms) && s <= SMALL_DELTA
    ensures OneBitFilled(CreateSymbol(c, ONE_BIT, s, |syms|), syms + [s])
  {
    assert BitsOf(1, s) == [s % 2 == 1];
  }

  lemma LastSplit(syms: seq<Symbol>)
    requires syms != []
    ensures syms == syms[..|syms| - 1] + [syms[|syms| - 1]]
  {}

  lemma {:induction false} FillOneBit(syms: seq<Symbol>)
    requires |syms| <= ONE_BIT_CAPACITY && forall i :: 0 <= i < |syms| ==> syms[i] <= SMALL_DELTA
    ensures OneBitFilled(FilledSymbols(ONE_BIT, syms), syms)
  {
    if syms != [] {
      var init := syms[..|syms| - 1];
      FillOneBit(init);
      PlaceOneBit(FilledSymbols(ONE_BIT, init), init, syms[|syms| - 1]);
      LastSplit(syms);
    }
  }

  ghost predicate TwoBitFilled(c: Chunk, syms: seq<Symbol>)
    requires |syms| <= 7
  {
    && !c[0] && !c[1]
    && (forall i :: 2 + 2 * |syms| <= i < 16 ==> !c[i])
    && (forall i :: 0 <= i < |syms| ==> TwoBitSymbol(c, i) == syms[i])
  }

  lemma PlaceTwoBit(c: Chunk, syms: seq<Symbol>, s: Symbol)
    requires |syms| < TWO_BIT_CAPACITY && TwoBitFilled(c, syms)
    ensures TwoBitFilled(CreateSymbol(c, TWO_BIT, s, |syms|), syms + [s])
  {
    assert BitsOf(2, s) == [s / 2 % 2 == 1, s % 2 == 1];
  }

  lemma {:induction false} FillTwoBit(syms: seq<Symbol>)
    requires |syms| <= TWO_BIT_CAPACITY
    ensures TwoBitFilled(FilledSymbols(TWO_BIT, syms), syms)
  {
    if syms != [] {
      var init := syms[..|syms| - 1];
      FillTwoBit(init);
      PlaceTwoBit(FilledSymbols(TWO_BIT, init), init, syms[|syms| - 1]);
      LastSplit(syms);
    }
  }

  ghost predicate Sealed(e: Chunk, c: Chunk, symbolSize: nat) {
    e[0] && e[1] == (symbolSize == 1) && forall i :: 2 <= i < 16 ==> e[i] == c[i]
  }

  lemma SealedHeader(c: Chunk, symbolSize: nat)
    requires symbolSize <= 1 && !c[0] && !c[1]
    ensures Sealed(SealVector(c, symbolSize), c, symbolSize)
  {
    assert BitsOf(1, 1) == [true] && BitsOf(1, symbolSize) == [symbolSize == 1];
  }

  lemma OneBitDecodes(e: Chunk, c: Chunk, syms: seq<Symbol>)
    requires |syms| <= ONE_BIT_CAPACITY && OneBitFilled(c, syms) && Sealed(e, c, ONE_BIT)
    ensures DecodeChunk(e) == syms + Repeat(NOT_RECEIVED, ONE_BIT_CAPACITY - |syms|)
  {
    var r, n := OneBitSymbols(e, ONE_BIT_CAPACITY), |syms|;
    assert forall i :: 0 <= i < n ==> r[i] == syms[i];
    assert forall i :: n <= i < ONE_BIT_CAPACITY ==> r[i] == NOT_RECEIVED;
    assert r == syms + Repeat(NOT_RECEIVED, ONE_BIT_CAPACITY - n);
  }

  lemma TwoBitDecodes(e: Chunk, c: Chunk, syms: seq<Symbol>)
    requires |syms| <= TWO_BIT_CAPACITY && TwoBitFilled(c, syms) && Sealed(e, c, TWO_BIT)
    ensures DecodeChunk(e) == syms + Repeat(NOT_RECEIVED, TWO_BIT_CAPACITY - |syms|)
  {
    var r, n := TwoBitSymbols(e, TWO_BIT_CAPACITY), |syms|;
    assert forall i :: 0 <= i < n ==> r[i] == syms[i];
    assert forall i :: n <= i < TWO_BIT_CAPACITY ==> r[i] == NOT_RECEIVED;
    assert r == syms + Repeat(NOT_RECEIVED, TWO_BIT_CAPACITY - n);
  }

  /** A one-bit vector decodes to the symbols it was filled with, padded with "not received". */
  lemma OneBitRoundTrip(syms: seq<Symbol>)
    requires |syms| <= ONE_BIT_CAPACITY && forall i :: 0 <= i < |syms| ==> syms[i] <= SMALL_DELTA
    ensures DecodeChunk(VectorChunk(ONE_BIT, syms)) == syms + Repeat(NOT_RECEIVED, ONE_BIT_CAPACITY - |syms|)
  {
    var c := FilledSymbols(ONE_BIT, syms);
    FillOneBit(syms);
    SealedHeader(c, ONE_BIT);
    OneBitDecodes(SealVector(c, ONE_BIT), c, syms);
  }

  /** A two-bit vector decodes to the symbols it was filled with, padded with "not received". */
  lemma TwoBitRoundTrip(syms: seq<Symbol>)
    requires |syms| <= TWO_BIT_CAPACITY
    ensures DecodeChunk(VectorChunk(TWO_BIT, syms)) == syms + Repeat(NOT_RECEIVED, TWO_BIT_CAPACITY - |syms|)
  {
    var c := FilledSymbols(TWO_BIT, syms);
    FillTwoBit(syms);
    SealedHeader(c, TWO_BIT);
    TwoBitDecodes(SealVector(c, TWO_BIT), c, syms);
  }
}
