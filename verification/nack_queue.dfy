/**
 The NACK queue: missing sequence numbers in order, each with the number of times it was
 requested, as a class over a list and as functions of the list.
 */
module NackQueue {
  import opened Words
  import opened NackPairs
  import opened NackMinimal

  const MAX_NACK_TIMES := 5
  const MAX_NACK_CACHE := 100

  datatype Nack = Nack(sn: u32, nacked: nat)

  // ---------------------------------------------------------------- the list

  ghost predicate Sorted(q: seq<Nack>) {
    forall i, j :: 0 <= i < j < |q| ==> q[i].sn <= q[j].sn
  }

  /** Entries with the same number were requested equally often. */
  ghost predicate Uniform(q: seq<Nack>) {
    forall i, j :: 0 <= i < j < |q| && q[i].sn == q[j].sn ==> q[i] == q[j]
  }

  ghost predicate Bounded(q: seq<Nack>) {
    forall i :: 0 <= i < |q| ==> q[i].nacked <= MAX_NACK_TIMES
  }

  /** What every operation keeps. */
  ghost predicate Inv(q: seq<Nack>) {
    Sorted(q) && Uniform(q) && Bounded(q)
  }

  /** The first position whose number is not below the given one. */
  ghost predicate LowerBound(q: seq<Nack>, sn: u32, i: nat) {
    && i <= |q|
    && (forall k :: 0 <= k < i ==> q[k].sn < sn)
    && (forall k :: i <= k < |q| ==> q[k].sn >= sn)
  }

  /** Where sort.Search ends in a sorted queue. */
  function Position(q: seq<Nack>, sn: u32): (i: nat)
    ensures i <= |q|
  {
    if q == [] || q[0].sn >= sn then 0 else 1 + Position(q[1..], sn)
  }

  lemma {:induction false} PositionIsLowerBound(q: seq<Nack>, sn: u32)
    requires Sorted(q)
    ensures LowerBound(q, sn, Position(q, sn))
  {
    if q != [] && q[0].sn < sn {
      PositionIsLowerBound(q[1..], sn);
      var i := Position(q[1..], sn);
      assert forall k :: 1 <= k < |q| ==> q[k] == q[1..][k - 1];
    }
  }

  lemma LowerBoundUnique(q: seq<Nack>, sn: u32, i: nat, j: nat)
    requires LowerBound(q, sn, i) && LowerBound(q, sn, j)
    ensures i == j
  {
    assert i < |q| ==> q[i].sn >= sn;
    assert j < |q| ==> q[j].sn >= sn;
  }

  predicate Contains(q: seq<Nack>, sn: u32) {
    exists i :: 0 <= i < |q| && q[i].sn == sn
  }

  /** Push without the shift that follows at 100 entries. */
  function InsertAt(q: seq<Nack>, i: nat, sn: u32): seq<Nack>
    requires i <= |q|
  {
    q[..i] + [Nack(sn, 0)] + q[i..]
  }

  /** copy(n.nacks, n.nacks[1:]): everything moves down one place, and the last entry stays where it was, too. */
  function ShiftDown(q: seq<Nack>): seq<Nack>
    requires q != []
  {
    q[1..] + [q[|q| - 1]]
  }

  function PushAt(q: seq<Nack>, i: nat, sn: u32): seq<Nack>
    requires i <= |q|
  {
    if i < |q| && q[i].sn == sn then q
    else if |q| + 1 >= MAX_NACK_CACHE then ShiftDown(InsertAt(q, i, sn))
    else InsertAt(q, i, sn)
  }

  function RemoveAt(q: seq<Nack>, i: nat, sn: u32): seq<Nack>
    requires i <= |q|
  {
    if i == |q| || q[i].sn != sn then q else q[..i] + q[i + 1..]
  }

  function AfterPush(q: seq<Nack>, sn: u32): seq<Nack> {
    PushAt(q, Position(q, sn), sn)
  }

  function AfterRemove(q: seq<Nack>, sn: u32): seq<Nack> {
    RemoveAt(q, Position(q, sn), sn)
  }

  lemma Inserted(q: seq<Nack>, i: nat, sn: u32)
    requires i <= |q|
    ensures var r := InsertAt(q, i, sn);
            && |r| == |q| + 1
            && forall k :: 0 <= k < |r| ==> r[k] == if k < i then q[k] else if k == i then Nack(sn, 0) else q[k - 1]
  {}

  lemma InsertIsUnion(q: seq<Nack>, i: nat, sn: u32, x: u32)
    requires i <= |q|
    ensures Contains(InsertAt(q, i, sn), x) <==> Contains(q, x) || x == sn
  {
    var r := InsertAt(q, i, sn);
    Inserted(q, i, sn);
    if Contains(q, x) {
      var k :| 0 <= k < |q| && q[k].sn == x;
      assert r[if k < i then k else k + 1].sn == x;
    }
    assert r[i].sn == sn;
  }

  lemma InsertKeepsInv(q: seq<Nack>, i: nat, sn: u32)
    requires Inv(q) && LowerBound(q, sn, i) && !(i < |q| && q[i].sn == sn)
    ensures Inv(InsertAt(q, i, sn))
    ensures forall x: u32 :: Contains(InsertAt(q, i, sn), x) <==> Contains(q, x) || x == sn
  {
    Inserted(q, i, sn);
    assert forall k :: i <= k < |q| ==> q[k].sn > sn;
    forall x: u32 ensures Contains(InsertAt(q, i, sn), x) <==> Contains(q, x) || x == sn {
      InsertIsUnion(q, i, sn, x);
    }
  }

  lemma ShiftKeepsInv(q: seq<Nack>)
    requires Inv(q) && q != []
    ensures Inv(ShiftDown(q))
    ensures forall x: u32 ::
              Contains(ShiftDown(q), x) <==> Contains(q, x) && (x != q[0].sn || |q| == 1 || q[1].sn == q[0].sn)
  {
    var r := ShiftDown(q);
    assert forall k :: 0 <= k < |r| ==> r[k] == if k + 1 < |q| then q[k + 1] else q[|q| - 1];
    forall x: u32
      ensures Contains(r, x) <==> Contains(q, x) && (x != q[0].sn || |q| == 1 || q[1].sn == q[0].sn)
    {
      if Contains(q, x) && (x != q[0].sn || |q| == 1 || q[1].sn == q[0].sn) {
        var k :| 0 <= k < |q| && q[k].sn == x;
        assert r[if k > 0 then k - 1 else 0].sn == x;
      }
      if Contains(r, x) {
        var k :| 0 <= k < |r| && r[k].sn == x;
        assert q[if k + 1 < |q| then k + 1 else |q| - 1].sn == x;
      }
    }
  }

  lemma PushKeepsInv(q: seq<Nack>, i: nat, sn: u32)
    requires Inv(q) && LowerBound(q, sn, i)
    ensures Inv(PushAt(q, i, sn))
  {
    if !(i < |q| && q[i].sn == sn) {
      InsertKeepsInv(q, i, sn);
      if |q| + 1 >= MAX_NACK_CACHE {
        ShiftKeepsInv(InsertAt(q, i, sn));
      }
    }
  }

  /** The number was already there. */
  lemma FoundIffContained(q: seq<Nack>, i: nat, sn: u32)
    requires LowerBound(q, sn, i) && Sorted(q)
    ensures (i < |q| && q[i].sn == sn) <==> Contains(q, sn)
  {}

  /**
   Push adds its number and drops nothing exactly when the number was there, the queue has
   fewer than 99 entries, or the smallest number would be there twice.
   */
  lemma PushIsInsertion(q: seq<Nack>, i: nat, sn: u32)
    requires Inv(q) && LowerBound(q, sn, i)
    ensures (forall x: u32 :: Contains(PushAt(q, i, sn), x) <==> Contains(q, x) || x == sn)
            <==> Contains(q, sn) || |q| + 1 < 100 || InsertAt(q, i, sn)[0].sn == InsertAt(q, i, sn)[1].sn
  {
    FoundIffContained(q, i, sn);
    if !Contains(q, sn) {
      InsertKeepsInv(q, i, sn);
      var r := InsertAt(q, i, sn);
      if |q| + 1 >= MAX_NACK_CACHE {
        ShiftKeepsInv(r);
        assert Contains(r, r[0].sn);
      }
    }
  }

  lemma DropKeepsInv(q: seq<Nack>, i: nat)
    requires Inv(q) && i < |q|
    ensures Inv(q[..i] + q[i + 1..])
  {
    var r := q[..i] + q[i + 1..];
    assert forall k :: 0 <= k < |r| ==> r[k] == if k < i then q[k] else q[k + 1];
  }

  lemma DroppedOne(q: seq<Nack>, i: nat, x: u32)
    requires i < |q| && x != q[i].sn
    ensures Contains(q[..i] + q[i + 1..], x) <==> Contains(q, x)
  {
    var r := q[..i] + q[i + 1..];
    if Contains(q, x) {
      var k :| 0 <= k < |q| && q[k].sn == x;
      assert r[if k < i then k else k - 1].sn == x;
    }
  }

  lemma RemoveKeepsInv(q: seq<Nack>, i: nat, sn: u32)
    requires Inv(q) && LowerBound(q, sn, i)
    ensures Inv(RemoveAt(q, i, sn))
  {
    if i < |q| && q[i].sn == sn {
      DropKeepsInv(q, i);
    }
  }

  /** Remove takes out its number, if it is there once, and no other. */
  lemma RemoveIsDeletion(q: seq<Nack>, i: nat, sn: u32)
    requires Inv(q) && LowerBound(q, sn, i)
    ensures forall x: u32 :: x != sn ==> (Contains(RemoveAt(q, i, sn), x) <==> Contains(q, x))
    ensures (forall a, b :: 0 <= a < b < |q| ==> q[a].sn != q[b].sn) ==> !Contains(RemoveAt(q, i, sn), sn)
  {
    FoundIffContained(q, i, sn);
    if i < |q| && q[i].sn == sn {
      forall x: u32 | x != sn ensures Contains(RemoveAt(q, i, sn), x) <==> Contains(q, x) {
        DroppedOne(q, i, x);
      }
      if forall a, b :: 0 <= a < b < |q| ==> q[a].sn != q[b].sn {
        var r := RemoveAt(q, i, sn);
        assert forall k :: 0 <= k < |r| ==> r[k] == if k < i then q[k] else q[k + 1];
      }
    }
  }

  /** All entries of a number were requested c times. */
  ghost predicate Counts(q: seq<Nack>, sn: u32, c: nat) {
    forall n :: n in q && n.sn == sn ==> n.nacked == c
  }

  /** A number that was not there is put in as never requested. */
  lemma PushedEntry(q: seq<Nack>, i: nat, sn: u32)
    requires i <= |q| && !Contains(q, sn)
    ensures var r := PushAt(q, i, sn);
            Counts(r, sn, 0)
  {
    var ins := InsertAt(q, i, sn);
    assert forall k :: 0 <= k < |ins| ==> ins[k] == if k < i then q[k] else if k == i then Nack(sn, 0) else q[k - 1];
    assert forall k :: 0 <= k < |q| ==> q[k].sn != sn;
  }

  /** Pushing another number copies entries but makes none for this number. */
  lemma PushedElsewhere(q: seq<Nack>, i: nat, sn: u32, other: u32)
    requires i <= |q| && sn != other
    ensures var r := PushAt(q, i, other);
            forall n :: n in r && n.sn == sn ==> n in q
  {
    var ins := InsertAt(q, i, other);
    assert forall k :: 0 <= k < |ins| ==> ins[k] == if k < i then q[k] else if k == i then Nack(other, 0) else q[k - 1];
  }

  // ---------------------------------------------------------------- requests

  predicate Exhausted(n: Nack) {
    n.nacked >= MAX_NACK_TIMES
  }

  /** Old enough to be requested: below the head minus two, on 32 bits. */
  predicate Due(n: Nack, headSN: u32) {
    n.sn < Sub32(headSN, 2)
  }

  predicate Eligible(n: Nack, headSN: u32) {
    !Exhausted(n) && Due(n, headSN)
  }

  /** The low 16 bits of the entries that a call requests, in order. */
  function ToRequest(q: seq<Nack>, headSN: u32): seq<u16> {
    if q == [] then []
    else
      var n := q[|q| - 1];
      ToRequest(q[..|q| - 1], headSN) + if Eligible(n, headSN) then [Low16(n.sn)] else []
  }

  /** An entry after a call that kept it. */
  function Counted(n: Nack, headSN: u32): Nack {
    if Due(n, headSN) then Nack(n.sn, n.nacked + 1) else n
  }

  /** The queue after a call: exhausted entries are gone, requested ones count one more request. */
  function AfterPairs(q: seq<Nack>, headSN: u32): seq<Nack> {
    if q == [] then []
    else
      var n := q[|q| - 1];
      AfterPairs(q[..|q| - 1], headSN) +
      if Exhausted(n) then [] else [Counted(n, headSN)]
  }

  /** The highest number a keyframe was asked for. */
  function KeyframeSN(q: seq<Nack>, kfSN: u32): u32 {
    if q == [] then kfSN
    else
      var k, n := KeyframeSN(q[..|q| - 1], kfSN), q[|q| - 1];
      if Exhausted(n) && n.sn > k then n.sn else k
  }

  lemma {:induction false} KeyframeGrows(q: seq<Nack>, kfSN: u32)
    ensures KeyframeSN(q, kfSN) >= kfSN
    ensures forall i :: 0 <= i < |q| && Exhausted(q[i]) ==> KeyframeSN(q, kfSN) >= q[i].sn
    ensures KeyframeSN(q, kfSN) > kfSN ==> exists i :: 0 <= i < |q| && Exhausted(q[i]) && q[i].sn == KeyframeSN(q, kfSN)
  {
    if q != [] {
      KeyframeGrows(q[..|q| - 1], kfSN);
    }
  }

  // ---------------------------------------------------------------- the class

  class Queue {
    var nacks: seq<Nack>
    var kfSN: u32

    ghost predicate Valid()
      reads this
    {
      Inv(nacks)
    }

    constructor ()
      ensures Valid() && nacks == [] && kfSN == 0
    {
      nacks, kfSN := [], 0;
    }

    /** sort.Search: binary search for the first entry not below a number. */
    method Search(extSN: u32) returns (i: nat)
      requires Valid()
      ensures LowerBound(nacks, extSN, i)
    {
      var j := |nacks|;
      i := 0;
      while i < j
        invariant i <= j <= |nacks|
        invariant forall k :: 0 <= k < i ==> nacks[k].sn < extSN
        invariant forall k :: j <= k < |nacks| ==> nacks[k].sn >= extSN
      {
        var h := (i + j) / 2;
        if nacks[h].sn < extSN {
          i := h + 1;
        } else {
          j := h;
        }
      }
    }

    method Remove(extSN: u32)
      requires Valid()
      modifies this`nacks
      ensures Valid() && nacks == AfterRemove(old(nacks), extSN)
    {
      var i := Search(extSN);
      PositionIsLowerBound(nacks, extSN);
      LowerBoundUnique(nacks, extSN, i, Position(nacks, extSN));
      RemoveKeepsInv(nacks, i, extSN);
      if i >= |nacks| || nacks[i].sn != extSN {
        return;
      }
      nacks := nacks[..i] + nacks[i + 1..];
    }

    method Push(extSN: u32)
      requires Valid()
      modifies this`nacks
      ensures Valid() && nacks == AfterPush(old(nacks), extSN)
    {
      var i := Search(extSN);
      PositionIsLowerBound(nacks, extSN);
      LowerBoundUnique(nacks, extSN, i, Position(nacks, extSN));
      PushKeepsInv(nacks, i, extSN);
      if i < |nacks| && nacks[i].sn == extSN {
        return;
      }
      PutIn(i, Nack(extSN, 0));
      ShiftIfFull();
    }

    /** copy(n.nacks, n.nacks[1:]) at the cache limit, which leaves the length as it is. */
    method ShiftIfFull()
      requires nacks != []
      modifies this`nacks
      ensures nacks == if |old(nacks)| >= MAX_NACK_CACHE then ShiftDown(old(nacks)) else old(nacks)
    {
      if |nacks| >= MAX_NACK_CACHE {
        nacks := nacks[1..] + [nacks[|nacks| - 1]];
      }
    }

    /** Grows the list by one and moves the tail up, unless the entry goes to the end. */
    method PutIn(i: nat, nck: Nack)
      requires i <= |nacks|
      modifies this`nacks
      ensures nacks == old(nacks)[..i] + [nck] + old(nacks)[i..] && |nacks| == |old(nacks)| + 1
    {
      if i == |nacks| {
        nacks := nacks + [nck];
      } else {
        nacks := nacks[..i + 1] + nacks[i..];
        nacks := nacks[i := nck];
      }
    }

    /** The loop body of Pairs: drops, keeps or requests the r-th entry, writing kept ones to the front. */
    method Visit(r: nat, at: nat, headSN: u32, current: Pair, done: seq<Pair>, ask: bool)
      returns (i: nat, np: Pair, nps: seq<Pair>, askKF: bool)
      requires at <= r < |nacks|
      modifies this
      ensures |nacks| == |old(nacks)| && nacks[r + 1..] == old(nacks)[r + 1..] && i <= r + 1
      ensures var n := old(nacks)[r];
              && nacks[..i] == (if Exhausted(n) then old(nacks)[..at] else old(nacks)[..at] + [Counted(n, headSN)])
              && Packing(np, nps) == (if Eligible(n, headSN) then Pack(Packing(current, done), Low16(n.sn))
                                      else Packing(current, done))
              && kfSN == (if Exhausted(n) && n.sn > old(kfSN) then n.sn else old(kfSN))
              && askKF == (ask || (Exhausted(n) && n.sn > old(kfSN)))
    {
      var nck := nacks[r];
      i, np, nps, askKF := at, current, done, ask;
      if nck.nacked >= MAX_NACK_TIMES {
        if nck.sn > kfSN {
          kfSN := nck.sn;
          askKF := true;
        }
      } else if nck.sn >= Sub32(headSN, 2) {
        WriteBack(nacks, i, r, nck);
        nacks := nacks[i := nck];
        i := i + 1;
      } else {
        WriteBack(nacks, i, r, Nack(nck.sn, nck.nacked + 1));
        nacks := nacks[i := Nack(nck.sn, nck.nacked + 1)];
        i := i + 1;
        np, nps := AddToPairs(np, nps, Low16(nck.sn));
      }
    }

    /** One round of requests. */
    method Pairs(headSN: u32) returns (nps: seq<Pair>, askKF: bool)
      requires Valid()
      modifies this
      ensures Valid()
      ensures nacks == AfterPairs(old(nacks), headSN)
      ensures nps == PairsFor(ToRequest(old(nacks), headSN))
      ensures kfSN == KeyframeSN(old(nacks), old(kfSN)) && (askKF <==> kfSN > old(kfSN))
    {
      ghost var q := nacks;
      PairsKeepInv(q, headSN);
      if |nacks| == 0 {
        return [], false;
      }
      var i := 0;
      askKF := false;
      var np := NO_PAIR;
      nps := [];
      for r := 0 to |nacks|
        invariant 0 <= i <= r && |nacks| == |q| && nacks[r..] == q[r..]
        invariant nacks[..i] == AfterPairs(q[..r], headSN)
        invariant Packing(np, nps) == PackAll(ToRequest(q[..r], headSN))
        invariant kfSN == KeyframeSN(q[..r], old(kfSN)) && kfSN >= old(kfSN) && (askKF <==> kfSN > old(kfSN))
      {
        var nck := nacks[r];
        SameTail(nacks, q, r);
        OneMoreEntry(q, r, headSN, old(kfSN));
        i, np, nps, askKF := Visit(r, i, headSN, np, nps, askKF);
      }
      assert q[..|q|] == q;
      if np.packetID != 0 {
        nps := nps + [np];
      }
      nacks := nacks[..i];
    }
  }

  lemma SameTail(s: seq<Nack>, q: seq<Nack>, r: nat)
    requires r < |s| == |q| && s[r..] == q[r..]
    ensures s[r] == q[r] && s[r + 1..] == q[r + 1..]
  {
    assert s[r..][0] == q[r..][0] && s[r..][1..] == q[r..][1..];
  }

  /** Writing back at or below the entry that was read leaves the ones behind it alone. */
  lemma WriteBack(s: seq<Nack>, i: nat, r: nat, x: Nack)
    requires i <= r < |s|
    ensures s[i := x][..i + 1] == s[..i] + [x] && s[i := x][r + 1..] == s[r + 1..]
  {}

  /** The part of the loop that packs one number. */
  method AddToPairs(current: Pair, done: seq<Pair>, sn: u16) returns (np: Pair, nps: seq<Pair>)
    ensures Packing(np, nps) == Pack(Packing(current, done), sn)
  {
    np, nps := current, done;
    if np.packetID == 0 || sn > Add16(np.packetID, 16) {
      if np.packetID != 0 {
        nps := nps + [np];
      }
      np := Pair(sn, Zeros(16));
    } else {
      np := np.(lost := SetBit(np.lost, Sub16(Sub16(sn, np.packetID), 1)));
    }
  }

  /** What the loop's functions do with one more entry. */
  lemma OneMoreEntry(q: seq<Nack>, r: nat, headSN: u32, kf: u32)
    requires r < |q|
    ensures ToRequest(q[..r + 1], headSN)
         == if Eligible(q[r], headSN) then ToRequest(q[..r], headSN) + [Low16(q[r].sn)] else ToRequest(q[..r], headSN)
    ensures PackAll(ToRequest(q[..r + 1], headSN))
         == if Eligible(q[r], headSN) then Pack(PackAll(ToRequest(q[..r], headSN)), Low16(q[r].sn))
            else PackAll(ToRequest(q[..r], headSN))
    ensures AfterPairs(q[..r + 1], headSN)
         == if Exhausted(q[r]) then AfterPairs(q[..r], headSN) else AfterPairs(q[..r], headSN) + [Counted(q[r], headSN)]
    ensures KeyframeSN(q[..r + 1], kf)
         == if Exhausted(q[r]) && q[r].sn > KeyframeSN(q[..r], kf) then q[r].sn else KeyframeSN(q[..r], kf)
  {
    assert q[..r + 1][..r] == q[..r];
    PackLast(ToRequest(q[..r], headSN), Low16(q[r].sn));
  }

  lemma PackLast(sns: seq<u16>, sn: u16)
    ensures PackAll(sns + [sn]) == Pack(PackAll(sns), sn)
  {
    assert (sns + [sn])[..|sns|] == sns;
  }

  /** Every entry that is left is a counted one of the queue before, and nothing else is lost. */
  lemma {:induction false} AfterPairsEntries(q: seq<Nack>, headSN: u32)
    ensures forall x :: x in AfterPairs(q, headSN) <==> exists y :: y in q && !Exhausted(y) && x == Counted(y, headSN)
  {
    if q != [] {
      AfterPairsEntries(q[..|q| - 1], headSN);
    }
  }

  lemma {:induction false} PairsKeepInv(q: seq<Nack>, headSN: u32)
    requires Inv(q)
    ensures Inv(AfterPairs(q, headSN))
  {
    if q != [] {
      var init, n := q[..|q| - 1], q[|q| - 1];
      PairsKeepInv(init, headSN);
      CountedBelow(q, headSN);
      if !Exhausted(n) {
        AppendKeepsInv(AfterPairs(init, headSN), Counted(n, headSN));
      }
    }
  }

  lemma AppendKeepsInv(q: seq<Nack>, n: Nack)
    requires Inv(q) && n.nacked <= MAX_NACK_TIMES
    requires forall k :: 0 <= k < |q| ==> q[k].sn <= n.sn && (q[k].sn == n.sn ==> q[k] == n)
    ensures Inv(q + [n])
  {}

  /** What the entries before the last one have become is not above it, and like it if it has its number. */
  lemma CountedBelow(q: seq<Nack>, headSN: u32)
    requires Inv(q) && q != []
    ensures var init, n := q[..|q| - 1], q[|q| - 1];
            forall k :: 0 <= k < |AfterPairs(init, headSN)| ==>
              var x := AfterPairs(init, headSN)[k];
              x.sn <= n.sn && (x.sn == n.sn && !Exhausted(n) ==> x == Counted(n, headSN))
  {
    var init, n := q[..|q| - 1], q[|q| - 1];
    var r := AfterPairs(init, headSN);
    AfterPairsEntries(init, headSN);
    forall k | 0 <= k < |r|
      ensures r[k].sn <= n.sn && (r[k].sn == n.sn && !Exhausted(n) ==> r[k] == Counted(n, headSN))
    {
      assert r[k] in r;
      var y :| y in init && !Exhausted(y) && r[k] == Counted(y, headSN);
      var i :| 0 <= i < |init| && init[i] == y;
      assert q[i] == y && q[|q| - 1] == n;
    }
  }

  // ---------------------------------------------------------------- runs

  datatype Op = Pushed(sn: u32) | Removed(sn: u32) | Asked(headSN: u32)

  function Apply(q: seq<Nack>, op: Op): seq<Nack> {
    match op
    case Pushed(sn) => AfterPush(q, sn)
    case Removed(sn) => AfterRemove(q, sn)
    case Asked(headSN) => AfterPairs(q, headSN)
  }

  /** The queue after a run of operations on an empty one. */
  function After(ops: seq<Op>): seq<Nack> {
    if ops == [] then [] else Apply(After(ops[..|ops| - 1]), ops[|ops| - 1])
  }

  lemma ApplyKeepsInv(q: seq<Nack>, op: Op)
    requires Inv(q)
    ensures Inv(Apply(q, op))
  {
    match op
    case Pushed(sn) =>
      PositionIsLowerBound(q, sn);
      PushKeepsInv(q, Position(q, sn), sn);
    case Removed(sn) =>
      PositionIsLowerBound(q, sn);
      RemoveKeepsInv(q, Position(q, sn), sn);
    case Asked(headSN) =>
      PairsKeepInv(q, headSN);
  }

  /** After every run the numbers do not decrease and no entry was requested more than 5 times. */
  lemma {:induction false} RunKeepsInv(ops: seq<Op>)
    ensures Inv(After(ops))
  {
    if ops != [] {
      RunKeepsInv(ops[..|ops| - 1]);
      ApplyKeepsInv(After(ops[..|ops| - 1]), ops[|ops| - 1]);
    }
  }

  /** The operation requests the number. */
  ghost predicate Requests(q: seq<Nack>, op: Op, sn: u32) {
    op.Asked? && exists i :: 0 <= i < |q| && q[i].sn == sn && Eligible(q[i], op.headSN)
  }

  /** How many operations of the run, from the i-th on, request the number. */
  ghost function RequestCount(ops: seq<Op>, i: nat, sn: u32): nat {
    if |ops| <= i then 0
    else
      var init := ops[..|ops| - 1];
      RequestCount(init, i, sn) + if Requests(After(init), ops[|ops| - 1], sn) then 1 else 0
  }

  /** The operation does not put the number in: it is another one, or a push of a number that is there. */
  ghost predicate NoInsertion(q: seq<Nack>, op: Op, sn: u32) {
    op == Pushed(sn) ==> Contains(q, sn)
  }

  /** From a state where a number was never requested, and until it is put in again, its entries count its requests. */
  lemma {:induction false} EntriesCountRequests(ops: seq<Op>, i: nat, sn: u32)
    requires i <= |ops| && Counts(After(ops[..i]), sn, 0)
    requires forall j :: i <= j < |ops| ==> NoInsertion(After(ops[..j]), ops[j], sn)
    ensures RequestCount(ops, i, sn) <= 5
    ensures Counts(After(ops), sn, RequestCount(ops, i, sn))
  {
    if i == |ops| {
      assert ops[..i] == ops;
    } else {
      var init := ops[..|ops| - 1];
      assert init[..i] == ops[..i];
      forall j | i <= j < |init| ensures NoInsertion(After(init[..j]), init[j], sn) {
        assert init[..j] == ops[..j];
      }
      EntriesCountRequests(init, i, sn);
      RunKeepsInv(init);
      CountStep(After(init), ops[|ops| - 1], sn, RequestCount(init, i, sn));
    }
  }

  lemma AskedStep(q: seq<Nack>, headSN: u32, sn: u32, c: nat)
    requires Inv(q) && Counts(q, sn, c) && c <= MAX_NACK_TIMES
    ensures var c' := c + if Requests(q, Asked(headSN), sn) then 1 else 0;
            c' <= MAX_NACK_TIMES && Counts(AfterPairs(q, headSN), sn, c')
  {
    AfterPairsEntries(q, headSN);
    forall x | x in AfterPairs(q, headSN) && x.sn == sn
      ensures x.nacked == c + if Requests(q, Asked(headSN), sn) then 1 else 0
    {
      var y :| y in q && !Exhausted(y) && x == Counted(y, headSN);
      var i :| 0 <= i < |q| && q[i] == y;
    }
  }

  lemma CountStep(q: seq<Nack>, op: Op, sn: u32, c: nat)
    requires Inv(q) && NoInsertion(q, op, sn) && c <= MAX_NACK_TIMES && Counts(q, sn, c)
    ensures var c' := c + if Requests(q, op, sn) then 1 else 0;
            c' <= MAX_NACK_TIMES && Counts(Apply(q, op), sn, c')
  {
    match op
    case Asked(headSN) => AskedStep(q, headSN, sn, c);
    case Pushed(x) =>
      if x == sn {
        PositionIsLowerBound(q, sn);
        FoundIffContained(q, Position(q, sn), sn);
      } else {
        PushedElsewhere(q, Position(q, x), sn, x);
      }
    case Removed(x) =>
  }

  /** A number is requested at most five times from one time it is put in the queue to the next. */
  lemma AtMostFiveRequests(ops: seq<Op>, i: nat, sn: u32)
    requires i < |ops| && ops[i] == Pushed(sn) && !Contains(After(ops[..i]), sn)
    requires forall j :: i < j < |ops| ==> NoInsertion(After(ops[..j]), ops[j], sn)
    ensures RequestCount(ops, i + 1, sn) <= 5
  {
    assert After(ops[..i + 1]) == AfterPush(After(ops[..i]), sn) by {
      assert ops[..i + 1][..i] == ops[..i];
    }
    FreshCounts(After(ops[..i]), After(ops[..i + 1]), sn);
    EntriesCountRequests(ops, i + 1, sn);
  }

  lemma FreshCounts(q: seq<Nack>, r: seq<Nack>, sn: u32)
    requires !Contains(q, sn) && r == AfterPush(q, sn)
    ensures Counts(r, sn, 0)
  {
    PushedEntry(q, Position(q, sn), sn);
  }

  /** n rounds of requests in a row. */
  function Rounds(q: seq<Nack>, heads: seq<u32>): seq<Nack> {
    if heads == [] then q else AfterPairs(Rounds(q, heads[..|heads| - 1]), heads[|heads| - 1])
  }

  /** Each round that all entries are due for raises what every remaining entry was requested. */
  lemma {:induction false} RoundsCount(q: seq<Nack>, heads: seq<u32>)
    requires Bounded(q)
    requires forall h, n :: h in heads && n in q ==> Due(n, h)
    ensures Bounded(Rounds(q, heads))
    ensures forall x :: x in Rounds(q, heads) ==> x.nacked >= |heads| && exists y :: y in q && y.sn == x.sn
  {
    if heads != [] {
      var p := Rounds(q, heads[..|heads| - 1]);
      RoundsCount(q, heads[..|heads| - 1]);
      AfterPairsEntries(p, heads[|heads| - 1]);
      var r := Rounds(q, heads);
      forall x | x in r ensures |heads| <= x.nacked <= MAX_NACK_TIMES && exists y :: y in q && y.sn == x.sn {
        var y :| y in p && !Exhausted(y) && x == Counted(y, heads[|heads| - 1]);
        var z :| z in q && z.sn == y.sn;
        assert Due(z, heads[|heads| - 1]);
      }
      assert forall k :: 0 <= k < |r| ==> r[k] in r;
    } else {
      assert forall k :: 0 <= k < |q| ==> q[k] in q;
    }
  }

  /** Six rounds with the head beyond all entries, and nothing new, empty the queue. */
  lemma SixRoundsEmpty(q: seq<Nack>, heads: seq<u32>)
    requires Inv(q) && |heads| == 6
    requires forall h, n :: h in heads && n in q ==> Due(n, h)
    ensures Rounds(q, heads) == []
  {
    var r := Rounds(q, heads);
    assert r != [] ==> r[0] in r;
    RoundsCount(q, heads);
  }

  /** A request round asks for the numbers of the eligible entries, and for nothing else. */
  lemma {:induction false} RequestedEntries(q: seq<Nack>, headSN: u32, x: u16)
    ensures x in ToRequest(q, headSN) <==> exists n :: n in q && Eligible(n, headSN) && Low16(n.sn) == x
  {
    if q != [] {
      RequestedEntries(q[..|q| - 1], headSN, x);
    }
  }

  /**
   The number is at least three behind the head. For a head of 0 or 1 the code's subtraction wraps
   around, so that all numbers but the highest two or one are.
   */
  predicate ThreeBehind(sn: u32, headSN: u32) {
    if headSN >= 2 then sn + 2 < headSN else sn < 0xFFFF_FFFE + headSN
  }

  /**
   A round requests the low bits of exactly those entries that were requested fewer than five
   times and are at least three behind the head.
   */
  lemma RoundRequestsIff(q: seq<Nack>, headSN: u32, x: u16)
    ensures x in ToRequest(q, headSN) <==>
            exists n :: n in q && n.nacked < 5 && Low16(n.sn) == x && ThreeBehind(n.sn, headSN)
  {
    RequestedEntries(q, headSN, x);
    forall n: Nack | n in q && Low16(n.sn) == x
      ensures Eligible(n, headSN) <==> n.nacked < 5 && ThreeBehind(n.sn, headSN)
    {}
  }

  /** What a round leaves of an entry: it counts, stays as it is, or is given up. */
  lemma RoundLeaves(q: seq<Nack>, headSN: u32, n: Nack)
    requires n in q && Inv(q)
    ensures var r := AfterPairs(q, headSN);
            && (n.nacked < 5 && ThreeBehind(n.sn, headSN) ==> Nack(n.sn, n.nacked + 1) in r)
            && (n.nacked < 5 && !ThreeBehind(n.sn, headSN) ==> n in r)
            && (n.nacked >= 5 ==> !Contains(r, n.sn))
            && forall x :: x in r && x.sn == n.sn ==> x.nacked == n.nacked + if ThreeBehind(n.sn, headSN) then 1 else 0
  {
    AfterPairsEntries(q, headSN);
    var r := AfterPairs(q, headSN);
    assert n.nacked < 5 ==> Counted(n, headSN) in r;
    forall x | x in r && x.sn == n.sn
      ensures x.nacked == n.nacked + (if ThreeBehind(n.sn, headSN) then 1 else 0) && n.nacked < 5
    {
      var y :| y in q && !Exhausted(y) && x == Counted(y, headSN);
      var i, j :| 0 <= i < |q| && 0 <= j < |q| && q[i] == y && q[j] == n;
    }
    if Contains(r, n.sn) {
      var k :| 0 <= k < |r| && r[k].sn == n.sn;
      assert r[k] in r;
    }
  }

  /** How many rounds of the run, from the i-th operation on, had a head at least three above the number. */
  function DueRounds(ops: seq<Op>, i: nat, sn: u32): nat {
    if |ops| <= i then 0
    else
      var last := ops[|ops| - 1];
      DueRounds(ops[..|ops| - 1], i, sn) + if last.Asked? && ThreeBehind(sn, last.headSN) then 1 else 0
  }

  /** While the number is in the queue, each such round has requested it. */
  lemma {:induction false} DueRoundsRequest(ops: seq<Op>, i: nat, sn: u32)
    requires i <= |ops| && Counts(After(ops[..i]), sn, 0) && Contains(After(ops), sn)
    requires forall j :: i <= j < |ops| ==> NoInsertion(After(ops[..j]), ops[j], sn)
    ensures RequestCount(ops, i, sn) == DueRounds(ops, i, sn)
  {
    if i < |ops| {
      var init, op := ops[..|ops| - 1], ops[|ops| - 1];
      assert init[..i] == ops[..i];
      forall j | i <= j < |init| ensures NoInsertion(After(init[..j]), init[j], sn) {
        assert init[..j] == ops[..j];
      }
      assert init == ops[..|ops| - 1] && NoInsertion(After(ops[..|ops| - 1]), ops[|ops| - 1], sn);
      RunKeepsInv(init);
      ContainedBefore(After(init), op, sn);
      DueRoundsRequest(init, i, sn);
      EntriesCountRequests(init, i, sn);
    }
  }

  /**
   What is in the queue after an operation that does not put it in was there before; a round
   requested it if it was due.
   */
  lemma ContainedBefore(q: seq<Nack>, op: Op, sn: u32)
    requires Inv(q) && NoInsertion(q, op, sn) && Contains(Apply(q, op), sn)
    ensures Contains(q, sn)
    ensures Requests(q, op, sn) <==> op.Asked? && ThreeBehind(sn, op.headSN)
  {
    var r := Apply(q, op);
    var k :| 0 <= k < |r| && r[k].sn == sn;
    assert r[k] in r;
    match op
    case Pushed(x) =>
      if x != sn {
        PushedElsewhere(q, Position(q, x), sn, x);
        assert r[k] in q;
      }
    case Removed(x) =>
      assert r[k] in q;
    case Asked(h) =>
      AfterPairsEntries(q, h);
      var y :| y in q && !Exhausted(y) && r[k] == Counted(y, h);
      var i :| 0 <= i < |q| && q[i] == y;
      if Requests(q, op, sn) {
        var j :| 0 <= j < |q| && q[j].sn == sn && Eligible(q[j], h);
      }
  }

  /**
   From its insertion on, and until it is put in again, a round requests a number exactly when it
   is still there, at least three behind the head, and fewer than five such rounds came before.
   */
  lemma RequestedIff(ops: seq<Op>, i: nat, sn: u32, j: nat)
    requires i < j < |ops| && ops[i] == Pushed(sn) && !Contains(After(ops[..i]), sn) && ops[j].Asked?
    requires forall k :: i < k < j ==> NoInsertion(After(ops[..k]), ops[k], sn)
    ensures Requests(After(ops[..j]), ops[j], sn) <==>
            && Contains(After(ops[..j]), sn) && ThreeBehind(sn, ops[j].headSN)
            && DueRounds(ops[..j], i + 1, sn) < 5
  {
    var run := ops[..j];
    assert After(run[..i + 1]) == AfterPush(After(ops[..i]), sn) by {
      assert run[..i + 1][..i] == ops[..i] && run[..i + 1][i] == ops[i];
    }
    FreshCounts(After(ops[..i]), After(run[..i + 1]), sn);
    forall k | i + 1 <= k < |run| ensures NoInsertion(After(run[..k]), run[k], sn) {
      assert run[..k] == ops[..k];
    }
    EntriesCountRequests(run, i + 1, sn);
    if Contains(After(run), sn) {
      DueRoundsRequest(run, i + 1, sn);
      var q := After(run);
      var k :| 0 <= k < |q| && q[k].sn == sn;
      assert q[k] in q;
      forall x | 0 <= x < |q| && q[x].sn == sn ensures q[x].nacked == DueRounds(run, i + 1, sn) {
        assert q[x] in q;
      }
    }
  }

  ghost predicate OneCycle(q: seq<Nack>) {
    && (forall i, j :: 0 <= i < j < |q| ==> q[i].sn - Low16(q[i].sn) == q[j].sn - Low16(q[j].sn))
    && (forall i :: 0 <= i < |q| ==> Low16(q[i].sn) != 0)
  }

  lemma {:induction false} OneCycleAscends(q: seq<Nack>, headSN: u32)
    requires Sorted(q) && OneCycle(q)
    ensures Ascending(ToRequest(q, headSN))
    ensures forall i :: 0 <= i < |ToRequest(q, headSN)| ==> q != [] && ToRequest(q, headSN)[i] <= Low16(q[|q| - 1].sn)
  {
    if q != [] {
      OneCycleAscends(q[..|q| - 1], headSN);
      if |q| > 1 {
        assert q[|q| - 2].sn <= q[|q| - 1].sn;
        SameCycleOrder(q[|q| - 2].sn, q[|q| - 1].sn);
      }
    }
  }

  lemma SameCycleOrder(a: u32, b: u32)
    requires a <= b && a - Low16(a) == b - Low16(b)
    ensures Low16(a) <= Low16(b)
  {}

  /**
   For a queue within one cycle and without low bits 0, the pairs ask for exactly the entries
   that are eligible, and no list of pairs is shorter except in the two cases of MinimalIff.
   */
  lemma PairsExactAndMinimal(q: seq<Nack>, headSN: u32)
    requires Inv(q) && OneCycle(q)
    ensures var sns := ToRequest(q, headSN);
            var ps := PairsFor(sns);
            && (forall i :: 0 <= i < |ps| ==> WellFormed(ps[i]))
            && (forall x: u16 :: Requested(ps, x) <==> exists n :: n in q && Eligible(n, headSN) && Low16(n.sn) == x)
            && (Shortest(ps, sns) <==> !High(sns) || (!High(sns[..|sns| - 1]) && !exists p: u16 :: WrapSaves(sns, p)))
  {
    var sns := ToRequest(q, headSN);
    OneCycleAscends(q, headSN);
    AscendingPairs(sns);
    forall x: u16 ensures x in sns <==> exists n :: n in q && Eligible(n, headSN) && Low16(n.sn) == x {
      RequestedEntries(q, headSN, x);
    }
    MinimalIff(sns);
  }
}
