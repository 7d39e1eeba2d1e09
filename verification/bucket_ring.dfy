/**
 What the packet bucket promises, without its byte buffer: a map from unwrapped sequence
 numbers to packets that only remembers a window below the highest number.
 */
module BucketRing {
  import opened Words

  const SEQ_NUM_OFFSET := 2

  /** The sequence number in the RTP header (section 5.1 of RFC 3550). */
  function SeqNum(pkt: seq<byte>): u16
    requires |pkt| >= 4
  {
    FromBe16(pkt[SEQ_NUM_OFFSET], pkt[SEQ_NUM_OFFSET + 1])
  }

  lemma UnwrapBits(head: int, sn: u16)
    ensures Low16(head + Sub16(sn, Low16(head))) == sn
    ensures Sub16(sn, Low16(head)) != 0 ==> Low16(head - (0x1_0000 - Sub16(sn, Low16(head)))) == sn
  {
    var d := Sub16(sn, Low16(head));
    Low16Sum(head, d);
    if d != 0 {
      Low16Sum(head, 0x1_0000 - d);
    }
  }

  /** The unwrapped number with these low bits that is nearest to the head; exactly half the cycle counts as ahead. */
  function Unwrap(head: int, sn: u16): (key: int)
    ensures Low16(key) == sn && head - 0x8000 < key <= head + 0x8000
  {
    var diff := Sub16(sn, Low16(head));
    UnwrapBits(head, sn);
    if diff > 0x8000 then head - (0x1_0000 - diff) else head + diff
  }

  /** The highest unwrapped number, and the packets that can still be read. */
  datatype Ring = Ring(head: int, live: map<int, seq<byte>>)

  ghost predicate InWindow(r: Ring, size: nat, key: int) {
    r.head - size < key <= r.head
  }

  /** Every readable packet is in the window and carries the number it is filed under. */
  ghost predicate Sound(r: Ring, size: nat) {
    forall k :: k in r.live ==>
      InWindow(r, size, k) && 4 <= |r.live[k]| <= 1498 && SeqNum(r.live[k]) == Low16(k)
  }

  /** The head moves to a new number; what falls out of the window is forgotten. */
  function Advance(r: Ring, size: nat, key: int, pkt: seq<byte>): Ring {
    Ring(key, (map k | k in r.live && key - size < k :: r.live[k])[key := pkt])
  }

  lemma AdvanceKeepsSound(r: Ring, size: nat, key: int, pkt: seq<byte>)
    requires Sound(r, size) && size > 0 && key > r.head && 4 <= |pkt| <= 1498 && SeqNum(pkt) == Low16(key)
    ensures Sound(Advance(r, size, key, pkt), size)
  {}

  // ---------------------------------------------------------------- one call

  datatype Event =
    | Added(key: int, pkt: seq<byte>, accepted: bool)
    | Restarted(key: int, pkt: seq<byte>)

  /**
   What an AddPacket call may do. A refused packet changes nothing; one in the window is only
   refused as a duplicate, which a packet that is still readable always is.
   */
  ghost predicate Next(r: Ring, size: nat, ev: Event, r': Ring) {
    match ev
    case Restarted(key, pkt) => r' == Ring(key, map[key := pkt])
    case Added(key, pkt, accepted) =>
      && r.head - 0x8000 < key <= r.head + 0x8000
      && (key > r.head ==> accepted && r' == Advance(r, size, key, pkt))
      && (key <= r.head && accepted ==>
            InWindow(r, size, key) && key !in r.live && r' == r.(live := r.live[key := pkt]))
      && (!accepted ==> r' == r)
  }

  lemma NextKeepsSound(r: Ring, size: nat, ev: Event, r': Ring)
    requires Sound(r, size) && Next(r, size, ev, r') && size > 0
    requires 4 <= |ev.pkt| <= 1498 && SeqNum(ev.pkt) == Low16(ev.key)
    ensures Sound(r', size)
  {}

  // ---------------------------------------------------------------- runs

  /** The states and calls of a run. */
  ghost predicate Run(rs: seq<Ring>, evs: seq<Event>, size: nat) {
    && |rs| == |evs| + 1 && size > 0
    && rs[0].live == map[]
    && forall i :: 0 <= i < |evs| ==> Next(rs[i], size, evs[i], rs[i + 1])
  }

  predicate Stores(ev: Event, key: int, pkt: seq<byte>) {
    ev.key == key && ev.pkt == pkt && (ev.Restarted? || ev.accepted)
  }

  /** Call i stored the packet under the key, and from then to state n neither a restart nor the window took it away. */
  ghost predicate KeptSince(rs: seq<Ring>, evs: seq<Event>, size: nat, i: nat, n: nat, key: int, pkt: seq<byte>)
    requires |rs| == |evs| + 1
  {
    && i < n < |rs|
    && Stores(evs[i], key, pkt)
    && (forall j :: i < j < n ==> !evs[j].Restarted?)
    && (forall j :: i < j <= n ==> key > rs[j].head - size)
  }

  lemma {:induction false} NothingAboveHead(rs: seq<Ring>, evs: seq<Event>, size: nat, n: nat)
    requires Run(rs, evs, size) && n < |rs|
    ensures forall k :: k in rs[n].live ==> k <= rs[n].head
  {
    if n > 0 {
      NothingAboveHead(rs, evs, size, n - 1);
      assert Next(rs[n - 1], size, evs[n - 1], rs[n]);
    }
  }

  /**
   Retention: a stored packet stays readable, byte for byte, until the head has moved past its
   window or the bucket restarts.
   */
  lemma {:induction false} Retained(rs: seq<Ring>, evs: seq<Event>, size: nat, i: nat, n: nat, key: int, pkt: seq<byte>)
    requires Run(rs, evs, size) && KeptSince(rs, evs, size, i, n, key, pkt)
    ensures key in rs[n].live && rs[n].live[key] == pkt
    decreases n
  {
    assert Next(rs[n - 1], size, evs[n - 1], rs[n]);
    if i < n - 1 {
      Retained(rs, evs, size, i, n - 1, key, pkt);
      NothingAboveHead(rs, evs, size, n - 1);
      assert !evs[n - 1].Restarted? && key > rs[n].head - size;
    }
  }

  /** Since call i the bucket has not restarted. */
  ghost predicate RunningSince(evs: seq<Event>, i: nat, n: nat) {
    forall j :: i < j < n && j < |evs| ==> !evs[j].Restarted?
  }

  /**
   Without a restart, a stored packet is either still there or has left the window for good: no other
   takes its key.
   */
  lemma {:induction false} NeverReplaced(rs: seq<Ring>, evs: seq<Event>, size: nat, i: nat, n: nat, key: int,
                                         pkt: seq<byte>)
    requires Run(rs, evs, size) && i < n < |rs| && Stores(evs[i], key, pkt) && RunningSince(evs, i, n)
    ensures key <= rs[n].head
    ensures if key in rs[n].live then rs[n].live[key] == pkt else key <= rs[n].head - size
    decreases n
  {
    assert Next(rs[n - 1], size, evs[n - 1], rs[n]);
    if i < n - 1 {
      NeverReplaced(rs, evs, size, i, n - 1, key, pkt);
      NothingAboveHead(rs, evs, size, n - 1);
      assert !evs[n - 1].Restarted?;
    }
  }

  /** No invention: whatever can be read was stored under that very number, and kept since. */
  lemma {:induction false} NothingElse(rs: seq<Ring>, evs: seq<Event>, size: nat, n: nat, key: int) returns (i: nat)
    requires Run(rs, evs, size) && n < |rs| && key in rs[n].live
    ensures KeptSince(rs, evs, size, i, n, key, rs[n].live[key])
    decreases n
  {
    assert Next(rs[n - 1], size, evs[n - 1], rs[n]);
    if Stores(evs[n - 1], key, rs[n].live[key]) {
      i := n - 1;
      assert KeptSince(rs, evs, size, i, n, key, rs[n].live[key]);
    } else {
      i := NothingElse(rs, evs, size, n - 1, key);
      assert !evs[n - 1].Restarted?;
      assert key > rs[n - 1].head - size && key > rs[n].head - size;
      assert rs[n - 1].live[key] == rs[n].live[key];
    }
  }

  /** After any run, a number reads as a packet exactly when that packet was stored under it and kept since. */
  lemma ReadsExactlyWhatWasKept(rs: seq<Ring>, evs: seq<Event>, size: nat, n: nat, key: int, pkt: seq<byte>)
    requires Run(rs, evs, size) && n < |rs|
    ensures key in rs[n].live && rs[n].live[key] == pkt
            <==> exists i :: KeptSince(rs, evs, size, i, n, key, pkt)
  {
    if key in rs[n].live && rs[n].live[key] == pkt {
      var i := NothingElse(rs, evs, size, n, key);
    }
    forall i: nat | KeptSince(rs, evs, size, i, n, key, pkt)
      ensures key in rs[n].live && rs[n].live[key] == pkt
    {
      Retained(rs, evs, size, i, n, key, pkt);
    }
  }

  /** Two live numbers with the same 16 bits would be a cycle apart: a window of at most one cycle has no such pair. */
  lemma OneCycleIsUnambiguous(r: Ring, size: nat, a: int, b: int)
    requires InWindow(r, size, a) && InWindow(r, size, b) && Low16(a) == Low16(b) && size <= 0x1_0000
    ensures a == b
  {
    if a > b {
      Low16Injective(b, a - b);
    } else if a < b {
      Low16Injective(a, b - a);
    }
  }
}
