/**
 NACK pairs (section 6.2.1 of RFC 4585): a packet ID and a bitmap of the 16 numbers after it,
 how the queue packs sorted sequence numbers into them, and what the result denotes.
 */
module NackPairs {
  import opened Words

  /** Bit b of `lost` stands for the number packetID + b + 1. */
  datatype Pair = Pair(packetID: u16, lost: seq<bool>)

  ghost predicate WellFormed(p: Pair) {
    |p.lost| == 16
  }

  /** The numbers a pair asks for. */
  ghost predicate Denotes(p: Pair, sn: u16)
    requires WellFormed(p)
  {
    sn == p.packetID || exists b :: 0 <= b < 16 && p.lost[b] && sn == Add16(p.packetID, b + 1)
  }

  ghost predicate Requested(ps: seq<Pair>, sn: u16)
    requires forall i :: 0 <= i < |ps| ==> WellFormed(ps[i])
  {
    exists i :: 0 <= i < |ps| && Denotes(ps[i], sn)
  }

  // ---------------------------------------------------------------- packing

  /** The loop's np and nps. */
  datatype Packing = Packing(np: Pair, nps: seq<Pair>)

  const NO_PAIR := Pair(0, Zeros(16))
  const EMPTY := Packing(NO_PAIR, [])

  /** 1 << k on a 16-bit map: nothing for k of 16 or more. */
  function SetBit(lost: seq<bool>, k: nat): seq<bool> {
    if k < 16 && k < |lost| then lost[k := true] else lost
  }

  /** A number begins a new pair if there is none yet or it is beyond the current pair's reach. */
  predicate Begins(p: Packing, sn: u16) {
    p.np.packetID == 0 || sn > Add16(p.np.packetID, 16)
  }

  function Pack(p: Packing, sn: u16): Packing {
    if Begins(p, sn) then
      Packing(Pair(sn, Zeros(16)), if p.np.packetID != 0 then p.nps + [p.np] else p.nps)
    else
      p.(np := p.np.(lost := SetBit(p.np.lost, Sub16(Sub16(sn, p.np.packetID), 1))))
  }

  function PackAll(sns: seq<u16>): Packing {
    if sns == [] then EMPTY else Pack(PackAll(sns[..|sns| - 1]), sns[|sns| - 1])
  }

  function Close(p: Packing): seq<Pair> {
    if p.np.packetID != 0 then p.nps + [p.np] else p.nps
  }

  /** The pairs for some numbers. */
  function PairsFor(sns: seq<u16>): seq<Pair> {
    Close(PackAll(sns))
  }

  // ---------------------------------------------------------------- what the pairs denote

  /** The number gets into a pair: not 0 as a packet ID, and not beyond the bitmap when it does not begin a pair. */
  predicate Enters(p: Packing, sn: u16) {
    if Begins(p, sn) then sn != 0 else Sub16(sn, p.np.packetID) <= 16
  }

  ghost predicate Shape(p: Packing) {
    WellFormed(p.np) && forall i :: 0 <= i < |p.nps| ==> WellFormed(p.nps[i])
  }

  ghost predicate Asks(p: Packing, sn: u16)
    requires Shape(p)
  {
    Requested(p.nps, sn) || (p.np.packetID != 0 && Denotes(p.np, sn))
  }

  lemma {:induction false} PackShape(sns: seq<u16>)
    ensures Shape(PackAll(sns))
  {
    if sns != [] {
      PackShape(sns[..|sns| - 1]);
    }
  }

  lemma RequestedAppend(ps: seq<Pair>, p: Pair, sn: u16)
    requires WellFormed(p) && forall i :: 0 <= i < |ps| ==> WellFormed(ps[i])
    ensures Requested(ps + [p], sn) <==> Requested(ps, sn) || Denotes(p, sn)
  {
    if Requested(ps, sn) {
      var i :| 0 <= i < |ps| && Denotes(ps[i], sn);
      assert (ps + [p])[i] == ps[i];
    }
    if Denotes(p, sn) {
      assert (ps + [p])[|ps|] == p;
    }
  }

  lemma CloseAsks(p: Packing, sn: u16)
    requires Shape(p)
    ensures Requested(Close(p), sn) <==> Asks(p, sn)
  {
    if p.np.packetID != 0 {
      RequestedAppend(p.nps, p.np, sn);
    }
  }

  lemma FreshPair(sn: u16, x: u16)
    ensures Denotes(Pair(sn, Zeros(16)), x) <==> x == sn
  {}

  /** Setting bit k makes a pair ask for one more number. */
  lemma OneMoreBit(p: Pair, k: nat, x: u16)
    requires WellFormed(p) && k < 16
    ensures Denotes(p.(lost := SetBit(p.lost, k)), x) <==> Denotes(p, x) || x == Add16(p.packetID, k + 1)
  {
    var q := p.(lost := SetBit(p.lost, k));
    assert q.lost[k];
    if Denotes(p, x) && x != p.packetID {
      var b :| 0 <= b < 16 && p.lost[b] && x == Add16(p.packetID, b + 1);
      assert q.lost[b];
    }
  }

  lemma BitNumber(id: u16, sn: u16)
    requires 1 <= Sub16(sn, id) <= 16
    ensures Sub16(Sub16(sn, id), 1) == Sub16(sn, id) - 1 && Add16(id, Sub16(Sub16(sn, id), 1) + 1) == sn
  {}

  lemma FarBit(id: u16, sn: u16)
    requires Sub16(sn, id) > 16 || sn == id
    ensures Sub16(Sub16(sn, id), 1) >= 16
  {}

  /** One turn of the packing loop asks for what was asked before, and for the number if it enters. */
  lemma PackAsks(p: Packing, sn: u16, x: u16)
    requires Shape(p)
    ensures Shape(Pack(p, sn))
    ensures Asks(Pack(p, sn), x) <==> Asks(p, x) || (Enters(p, sn) && x == sn)
  {
    if Begins(p, sn) {
      FreshPair(sn, x);
      if p.np.packetID != 0 {
        RequestedAppend(p.nps, p.np, x);
      }
    } else if sn == p.np.packetID {
      FarBit(p.np.packetID, sn);
    } else if Sub16(sn, p.np.packetID) <= 16 {
      BitNumber(p.np.packetID, sn);
      OneMoreBit(p.np, Sub16(Sub16(sn, p.np.packetID), 1), x);
    } else {
      FarBit(p.np.packetID, sn);
    }
  }

  /** The numbers among some that get into a pair when they are packed in order. */
  ghost predicate Entered(sns: seq<u16>, x: u16) {
    exists i :: 0 <= i < |sns| && sns[i] == x && Enters(PackAll(sns[..i]), sns[i])
  }

  lemma EnteredStep(sns: seq<u16>, x: u16)
    requires sns != []
    ensures var n := |sns| - 1;
            Entered(sns, x) <==> Entered(sns[..n], x) || (sns[n] == x && Enters(PackAll(sns[..n]), sns[n]))
  {
    var n := |sns| - 1;
    if Entered(sns, x) {
      var i :| 0 <= i < |sns| && sns[i] == x && Enters(PackAll(sns[..i]), sns[i]);
      if i < n {
        assert sns[..n][..i] == sns[..i];
      }
    }
    if Entered(sns[..n], x) {
      var i :| 0 <= i < n && sns[..n][i] == x && Enters(PackAll(sns[..n][..i]), sns[..n][i]);
      assert sns[..n][..i] == sns[..i];
    }
  }

  /** The pairs ask for exactly the numbers that entered, never for a number that was not given. */
  lemma {:induction false} PairsDenoteEntered(sns: seq<u16>, x: u16)
    ensures Shape(PackAll(sns))
    ensures Asks(PackAll(sns), x) <==> Entered(sns, x)
  {
    if sns != [] {
      PairsDenoteEntered(sns[..|sns| - 1], x);
      PackAsks(PackAll(sns[..|sns| - 1]), sns[|sns| - 1], x);
      EnteredStep(sns, x);
    }
  }

  /** Every number enters when its turn comes. */
  predicate Packable(sns: seq<u16>) {
    sns == [] || (Packable(sns[..|sns| - 1]) && Enters(PackAll(sns[..|sns| - 1]), sns[|sns| - 1]))
  }

  lemma {:induction false} PackableAt(sns: seq<u16>, i: nat)
    requires Packable(sns) && i < |sns|
    ensures Enters(PackAll(sns[..i]), sns[i])
  {
    if i < |sns| - 1 {
      PackableAt(sns[..|sns| - 1], i);
      assert sns[..|sns| - 1][..i] == sns[..i];
    }
  }

  lemma {:induction false} NotPackableAt(sns: seq<u16>) returns (i: nat)
    requires !Packable(sns)
    ensures i < |sns| && !Enters(PackAll(sns[..i]), sns[i])
  {
    var n := |sns| - 1;
    if !Packable(sns[..n]) {
      i := NotPackableAt(sns[..n]);
      assert sns[..n][..i] == sns[..i];
    } else {
      i := n;
    }
  }

  lemma ClosedShape(p: Packing)
    requires Shape(p)
    ensures forall i :: 0 <= i < |Close(p)| ==> WellFormed(Close(p)[i])
  {}

  /**
   For different numbers, the pairs ask for exactly them if and only if each one entered: it did
   not begin a pair as number 0 and did not fall behind the bitmap of a pair of the last cycle.
   */
  lemma PairsExactIffPackable(sns: seq<u16>)
    requires forall i, j :: 0 <= i < j < |sns| ==> sns[i] != sns[j]
    ensures forall i :: 0 <= i < |PairsFor(sns)| ==> WellFormed(PairsFor(sns)[i])
    ensures (forall x: u16 :: Requested(PairsFor(sns), x) <==> x in sns) <==> Packable(sns)
  {
    PackShape(sns);
    ClosedShape(PackAll(sns));
    forall x: u16 ensures Requested(PairsFor(sns), x) <==> Entered(sns, x) {
      PairsDenoteEntered(sns, x);
      CloseAsks(PackAll(sns), x);
    }
    if Packable(sns) {
      forall x: u16 ensures Entered(sns, x) <==> x in sns {
        if x in sns {
          var i :| 0 <= i < |sns| && sns[i] == x;
          PackableAt(sns, i);
        }
      }
    } else {
      var i := NotPackableAt(sns);
      assert !Entered(sns, sns[i]);
      assert sns[i] in sns;
    }
  }

  /** Numbers of one cycle without 0: the last one bounds the current packet ID from above. */
  ghost predicate Ascending(sns: seq<u16>) {
    && (forall i :: 0 <= i < |sns| ==> sns[i] > 0)
    && (forall i, j :: 0 <= i < j < |sns| ==> sns[i] <= sns[j])
  }

  lemma {:induction false} CurrentPair(sns: seq<u16>)
    requires Ascending(sns) && sns != []
    ensures 0 < PackAll(sns).np.packetID <= sns[|sns| - 1]
  {
    if |sns| > 1 {
      CurrentPair(sns[..|sns| - 1]);
    } else {
      assert sns[..0] == [];
    }
  }

  lemma LaterNumberEnters(p: Packing, sn: u16)
    requires p.np.packetID <= sn && sn > 0
    ensures Enters(p, sn)
  {}

  /** In one cycle, without number 0, repeated numbers or not, every number enters. */
  lemma {:induction false} AscendingIsPackable(sns: seq<u16>)
    requires Ascending(sns)
    ensures Packable(sns)
  {
    if sns != [] {
      var n := |sns| - 1;
      AscendingIsPackable(sns[..n]);
      if n > 0 {
        CurrentPair(sns[..n]);
      }
      LaterNumberEnters(PackAll(sns[..n]), sns[n]);
    }
  }

  /** So the pairs ask for exactly the numbers given, even when some are given twice. */
  lemma AscendingPairs(sns: seq<u16>)
    requires Ascending(sns)
    ensures forall i :: 0 <= i < |PairsFor(sns)| ==> WellFormed(PairsFor(sns)[i])
    ensures forall x: u16 :: Requested(PairsFor(sns), x) <==> x in sns
  {
    PackShape(sns);
    ClosedShape(PackAll(sns));
    AscendingIsPackable(sns);
    forall x: u16 ensures Requested(PairsFor(sns), x) <==> x in sns {
      PairsDenoteEntered(sns, x);
      CloseAsks(PackAll(sns), x);
      if x in sns {
        var i :| 0 <= i < |sns| && sns[i] == x;
        PackableAt(sns, i);
      }
    }
  }

  /** A single missing number 65536 has low bits 0, which the code takes for "no pair": nothing is requested. */
  lemma NumberZeroIsNotRequested()
    ensures PairsFor([0]) == []
  {
    assert [0][..0] == [];
  }
}
