/**
 The packet bucket: a flat byte buffer cut into slots of one packet each, used as a ring
 below the highest sequence number, and the proof that it is the ring of BucketRing.
 */
module PacketBucket {
  import opened Words
  import opened BucketRing

  const MAX_PKT_SIZE := 1500
  const PKT_SIZE_HEADER := 2
  const INVALID_PKT_SIZE: u16 := 65535

  datatype Error = PacketTooOld | RtxPacket | PacketNotFound | BufferTooSmall

  datatype Result<T> = Ok(value: T) | Err(error: Error)

  // ---------------------------------------------------------------- slots

  /** The size word and the sequence number bytes of a slot. */
  function SizeOf(slot: seq<byte>): u16
    requires |slot| == MAX_PKT_SIZE
  {
    FromBe16(slot[0], slot[1])
  }

  function TagOf(slot: seq<byte>): u16
    requires |slot| == MAX_PKT_SIZE
  {
    FromBe16(slot[4], slot[5])
  }

  ghost predicate Empty(slot: seq<byte>)
    requires |slot| == MAX_PKT_SIZE
  {
    SizeOf(slot) == 0xFFFF
  }

  ghost predicate Holds(slot: seq<byte>, pkt: seq<byte>)
    requires |slot| == MAX_PKT_SIZE
  {
    |pkt| <= MAX_PKT_SIZE - PKT_SIZE_HEADER && SizeOf(slot) == |pkt| && slot[2..2 + |pkt|] == pkt
  }

  /** The slot of a number is empty, or holds the packet that is readable under it. */
  ghost predicate SlotFor(slot: seq<byte>, live: map<int, seq<byte>>, key: int)
    requires |slot| == MAX_PKT_SIZE
  {
    if key in live then Holds(slot, live[key]) else Empty(slot)
  }

  /** wrap: adds or subtracts maxSteps until the slot is in range. */
  function WrapOf(slot: int, maxSteps: nat): (r: nat)
    requires maxSteps > 0
    ensures r < maxSteps
    decreases if slot < 0 then -slot else if slot >= maxSteps then slot else 0
  {
    if slot < 0 then WrapOf(slot + maxSteps, maxSteps)
    else if slot >= maxSteps then WrapOf(slot - maxSteps, maxSteps)
    else slot
  }

  lemma {:induction false} WrapNext(slot: int, maxSteps: nat)
    requires maxSteps > 0
    ensures WrapOf(slot + 1, maxSteps) == if WrapOf(slot, maxSteps) + 1 == maxSteps then 0
            else WrapOf(slot, maxSteps) + 1
    decreases if slot < 0 then -slot else if slot >= maxSteps then slot else 0
  {
    if slot < 0 {
      WrapNext(slot + maxSteps, maxSteps);
      assert WrapOf(slot + 1, maxSteps) == WrapOf(slot + 1 + maxSteps, maxSteps);
    } else if slot >= maxSteps {
      WrapNext(slot - maxSteps, maxSteps);
    }
  }

  /** The slot of the number d below the head, when the next packet goes to slot `step`. */
  function SlotIndex(step: nat, d: nat, maxSteps: nat): (r: nat)
    requires step < maxSteps && d < maxSteps
    ensures r < maxSteps
  {
    if step - 1 - d < 0 then step - 1 - d + maxSteps else step - 1 - d
  }

  /** Whether a slot is among the n slots from `start` on, around the end of the buffer. */
  predicate InRange(start: nat, n: nat, j: nat, maxSteps: nat) {
    start <= j < start + n || j + maxSteps < start + n
  }

  /** Where the numbers of the window are after the head has moved on by gap + 1. */
  lemma IndexAfterGap(step: nat, gap: nat, d: nat, maxSteps: nat)
    requires step < maxSteps && gap < maxSteps && d < maxSteps
    ensures var stored := WrapOf(step + gap, maxSteps);
            var i := SlotIndex(WrapOf(step + gap + 1, maxSteps), d, maxSteps);
            && (d == 0 ==> i == stored)
            && (1 <= d <= gap ==> InRange(step, gap, i, maxSteps) && i != stored)
            && (d > gap ==>
               i == SlotIndex(step, d - gap - 1, maxSteps) && !InRange(step, gap, i, maxSteps) && i != stored)
  {}

  /** The same for gaps of the whole bucket and more, which empty every slot. */
  lemma IndexAfterAnyGap(before: nat, after: nat, gap: nat, d: nat, maxSteps: nat)
    requires before < maxSteps && 0 < d < maxSteps && after == WrapOf(before + gap + 1, maxSteps)
    ensures var n := if gap > maxSteps then maxSteps else gap;
            var i := SlotIndex(after, d, maxSteps);
            && i < maxSteps && i != WrapOf(before + gap, maxSteps)
            && (d <= gap ==> InRange(before, n, i, maxSteps))
            && (d > gap ==> !InRange(before, n, i, maxSteps) && i == SlotIndex(before, d - gap - 1, maxSteps))
  {
    if gap < maxSteps {
      IndexAfterGap(before, gap, d, maxSteps);
    } else {
      WrapNext(before + gap, maxSteps);
    }
  }

  // ---------------------------------------------------------------- bytes in slots

  function Slot(b: seq<byte>, j: nat): (r: seq<byte>)
    requires MAX_PKT_SIZE * (j + 1) <= |b|
    ensures |r| == MAX_PKT_SIZE
  {
    b[MAX_PKT_SIZE * j..MAX_PKT_SIZE * (j + 1)]
  }

  lemma SliceOfSlot(b: seq<byte>, j: nat, at: nat, n: nat)
    requires MAX_PKT_SIZE * (j + 1) <= |b| && at + n <= MAX_PKT_SIZE
    ensures Slot(b, j)[at..at + n] == b[MAX_PKT_SIZE * j + at..MAX_PKT_SIZE * j + at + n]
  {
    var o := MAX_PKT_SIZE * j;
    var l, r := Slot(b, j)[at..at + n], b[o + at..o + at + n];
    forall x | 0 <= x < n ensures l[x] == r[x] {
      assert l[x] == Slot(b, j)[at + x] == b[o + (at + x)];
    }
  }

  /** A buffer with some of its bytes replaced. */
  function Written(b: seq<byte>, off: nat, data: seq<byte>): (r: seq<byte>)
    requires off + |data| <= |b|
    ensures |r| == |b|
  {
    b[..off] + data + b[off + |data|..]
  }

  lemma WrittenTwice(b: seq<byte>, off: nat, x: seq<byte>, y: seq<byte>)
    requires off + |x| + |y| <= |b|
    ensures Written(Written(b, off, x), off + |x|, y) == Written(b, off, x + y)
  {}

  /** Bytes written inside one slot change that slot only. */
  lemma WriteSlot(b: seq<byte>, b': seq<byte>, j: nat, at: nat, data: seq<byte>)
    requires MAX_PKT_SIZE * (j + 1) <= |b| == |b'| && at + |data| <= MAX_PKT_SIZE
    requires b'[..MAX_PKT_SIZE * j + at] == b[..MAX_PKT_SIZE * j + at]
    requires b'[MAX_PKT_SIZE * j + at..MAX_PKT_SIZE * j + at + |data|] == data
    requires b'[MAX_PKT_SIZE * j + at + |data|..] == b[MAX_PKT_SIZE * j + at + |data|..]
    ensures Slot(b', j) == Slot(b, j)[..at] + data + Slot(b, j)[at + |data|..]
    ensures forall i: nat :: i != j && MAX_PKT_SIZE * (i + 1) <= |b| ==> Slot(b', i) == Slot(b, i)
  {
    var o := MAX_PKT_SIZE * j;
    assert forall x :: 0 <= x < o + at ==> b'[x] == b'[..o + at][x] == b[..o + at][x] == b[x];
    assert forall x :: o + at + |data| <= x < |b| ==>
      b'[x] == b'[o + at + |data|..][x - o - at - |data|] == b[o + at + |data|..][x - o - at - |data|] == b[x];
    assert forall x :: o + at <= x < o + at + |data| ==> b'[x] == b'[o + at..o + at + |data|][x - o - at];
    var r := Slot(b, j)[..at] + data + Slot(b, j)[at + |data|..];
    assert forall x :: 0 <= x < MAX_PKT_SIZE ==> Slot(b', j)[x] == b'[o + x] && Slot(b, j)[x] == b[o + x];
    assert forall x :: 0 <= x < MAX_PKT_SIZE ==> r[x] == b'[o + x];
    forall i: nat | i != j && MAX_PKT_SIZE * (i + 1) <= |b|
      ensures Slot(b', i) == Slot(b, i)
    {}
  }

  /** A packet too long for a slot goes on in the next one: its bytes there come first, as a size word. */
  lemma LongPacketOverwritesNext(b: seq<byte>, j: nat, pkt: seq<byte>)
    requires MAX_PKT_SIZE * (j + 2) <= |b| && MAX_PKT_SIZE < PKT_SIZE_HEADER + |pkt| <= 2 * MAX_PKT_SIZE
    ensures var n := MAX_PKT_SIZE - PKT_SIZE_HEADER;
            Slot(Written(b, MAX_PKT_SIZE * j, Be16(|pkt|) + pkt), j + 1) == pkt[n..] + Slot(b, j + 1)[|pkt| - n..]
  {
    var n, o := MAX_PKT_SIZE - PKT_SIZE_HEADER, MAX_PKT_SIZE * (j + 1);
    var b', r := Written(b, MAX_PKT_SIZE * j, Be16(|pkt|) + pkt), pkt[n..] + Slot(b, j + 1)[|pkt| - n..];
    forall x | 0 <= x < MAX_PKT_SIZE ensures Slot(b', j + 1)[x] == r[x] {
      assert Slot(b', j + 1)[x] == b'[o + x] && Slot(b, j + 1)[x] == b[o + x];
    }
  }

  /** Writing a size word and then the packet behind it makes the slot hold the packet. */
  lemma StoredSlot(slot: seq<byte>, pkt: seq<byte>)
    requires |slot| == MAX_PKT_SIZE && |pkt| <= MAX_PKT_SIZE - PKT_SIZE_HEADER
    ensures var r := Be16(|pkt|) + pkt + slot[2 + |pkt|..];
            |r| == MAX_PKT_SIZE && Holds(r, pkt)
  {
    Be16RoundTrip(|pkt|);
  }

  lemma TagOfHeld(slot: seq<byte>, pkt: seq<byte>)
    requires |slot| == MAX_PKT_SIZE && Holds(slot, pkt) && |pkt| >= 4
    ensures TagOf(slot) == SeqNum(pkt)
  {
    assert slot[2..2 + |pkt|][2] == slot[4] && slot[2..2 + |pkt|][3] == slot[5];
  }

  lemma SameTag(a: seq<byte>, b: seq<byte>)
    requires |a| == |b| == MAX_PKT_SIZE && a[2..] == b[2..]
    ensures TagOf(a) == TagOf(b)
  {
    assert a[2..][2] == b[2..][2] && a[2..][3] == b[2..][3];
  }

  /** The header words of a slot are where the code reads them in the buffer. */
  lemma SlotShows(b: seq<byte>, j: nat, off: nat)
    requires MAX_PKT_SIZE * (j + 1) <= |b| && off == MAX_PKT_SIZE * j
    ensures SizeOf(Slot(b, j)) == FromBe16(b[off], b[off + 1])
    ensures TagOf(Slot(b, j)) == FromBe16(b[off + 4], b[off + 5])
  {}

  lemma BehindBits(head: int, sn: u16)
    ensures Low16(head - Sub16(Low16(head), sn)) == sn
  {
    Low16Sum(head, Sub16(Low16(head), sn));
  }

  /** In a buffer cut into slots, the slot of every number of the window is as the ring says. */
  ghost predicate Window(b: seq<byte>, step: nat, maxSteps: nat, r: Ring)
    requires step < maxSteps && MAX_PKT_SIZE * maxSteps <= |b|
  {
    forall d: nat :: d < maxSteps ==> SlotFor(Slot(b, SlotIndex(step, d, maxSteps)), r.live, r.head - d)
  }

  /** Moved on by gap + 1, the window has the packet, empty slots for the gap, and what it had before. */
  lemma WindowAdvanced(b: seq<byte>, b': seq<byte>, step: nat, step': nat, maxSteps: nat, r: Ring, gap: nat,
                       pkt: seq<byte>)
    requires step < maxSteps && step' < maxSteps && MAX_PKT_SIZE * maxSteps <= |b| == |b'|
    requires Sound(r, maxSteps) && Window(b, step, maxSteps, r) && Holds(Slot(b', SlotIndex(step', 0, maxSteps)), pkt)
    requires forall d: nat :: 0 < d < maxSteps && d <= gap ==> Empty(Slot(b', SlotIndex(step', d, maxSteps)))
    requires forall d: nat :: gap < d < maxSteps ==>
               Slot(b', SlotIndex(step', d, maxSteps)) == Slot(b, SlotIndex(step, d - gap - 1, maxSteps))
    ensures Window(b', step', maxSteps, Advance(r, maxSteps, r.head + gap + 1, pkt))
  {
    var after := Advance(r, maxSteps, r.head + gap + 1, pkt);
    forall d: nat | d < maxSteps ensures SlotFor(Slot(b', SlotIndex(step', d, maxSteps)), after.live, after.head - d) {
      if d > gap {
        assert SlotFor(Slot(b, SlotIndex(step, d - gap - 1, maxSteps)), r.live, r.head - (d - gap - 1));
      }
    }
  }

  lemma IndexInjective(step: nat, d: nat, e: nat, maxSteps: nat)
    requires step < maxSteps && d < maxSteps && e < maxSteps
    ensures SlotIndex(step, d, maxSteps) == SlotIndex(step, e, maxSteps) <==> d == e
  {}

  class Bucket {
    const buf: array<byte>
    var init: bool
    var resyncOnNextPacket: bool
    var step: nat
    var headSN: u16
    const maxSteps: nat

    /** The ring that the buffer represents. */
    ghost var ring: Ring

    predicate Sized() {
      maxSteps >= 1 && buf.Length / MAX_PKT_SIZE == maxSteps
    }

    ghost predicate Shape()
      reads this
    {
      Sized() && step < maxSteps
    }

    function SlotAt(j: nat): (r: seq<byte>)
      requires Sized() && j < maxSteps
      reads buf
      ensures |r| == MAX_PKT_SIZE
    {
      Slot(buf[..], j)
    }

    /** The slot of every number in the window is as the ring says. */
    ghost predicate Represents(r: Ring)
      requires Shape()
      reads this, buf
    {
      Window(buf[..], step, maxSteps, r)
    }

    ghost predicate Valid()
      reads this, buf
    {
      && Shape() && Sound(ring, maxSteps) && Represents(ring)
      && (init ==> headSN == Low16(ring.head))
      && (!init ==> ring.live == map[])
    }

    /** The sequence number that the bytes of a slot show, whether or not the slot is empty. */
    ghost function Tag(j: nat): u16
      requires Sized() && j < maxSteps
      reads buf
    {
      TagOf(SlotAt(j))
    }

    // ------------------------------------------------------------ slot arithmetic and single writes

    method Wrap(slot: int) returns (r: nat)
      requires maxSteps > 0
      ensures r == WrapOf(slot, maxSteps)
    {
      var s := slot;
      while s < 0
        invariant WrapOf(s, maxSteps) == WrapOf(slot, maxSteps)
      {
        s := s + maxSteps;
      }
      while s >= maxSteps
        invariant s >= 0 && WrapOf(s, maxSteps) == WrapOf(slot, maxSteps)
      {
        s := s - maxSteps;
      }
      r := s;
    }

    method Offset(slot: int) returns (r: nat)
      requires maxSteps > 0
      ensures r == WrapOf(slot, maxSteps) * MAX_PKT_SIZE
    {
      var w := Wrap(slot);
      r := w * MAX_PKT_SIZE;
    }

    /** copy, into a buffer that has room for the bytes. */
    method Copy(off: nat, data: seq<byte>)
      requires off + |data| <= buf.Length
      modifies buf
      ensures buf[..] == Written(old(buf[..]), off, data)
    {
      ghost var before := buf[..];
      for x := 0 to |data|
        invariant buf[..off] == before[..off] && buf[off..off + x] == data[..x] && buf[off + x..] == before[off + x..]
      {
        buf[off + x] := data[x];
        assert buf[off..off + x + 1] == buf[off..off + x] + [data[x]];
        assert data[..x + 1] == data[..x] + [data[x]];
        assert before[off + x + 1..] == before[off + x..][1..];
        assert buf[off + x + 1..] == buf[off + x..][1..];
      }
    }

    /** Writes bytes into one slot; every other slot keeps its bytes. */
    method Put(ghost j: nat, off: nat, data: seq<byte>)
      requires Shape() && j < maxSteps
      requires MAX_PKT_SIZE * j <= off && off + |data| <= MAX_PKT_SIZE * (j + 1)
      modifies buf
      ensures SlotAt(j) == old(SlotAt(j))[..off - MAX_PKT_SIZE * j] + data
                           + old(SlotAt(j))[off - MAX_PKT_SIZE * j + |data|..]
      ensures forall i: nat :: i < maxSteps && i != j ==> SlotAt(i) == old(SlotAt(i))
    {
      ghost var before := buf[..];
      Copy(off, data);
      WriteSlot(before, buf[..], j, off - MAX_PKT_SIZE * j, data);
    }

    /** Marks the slots of a range as empty and leaves the packets' own bytes behind in them. */
    method Invalidate(startSlot: nat, numSlots: nat)
      requires maxSteps == buf.Length / MAX_PKT_SIZE && (maxSteps > 0 ==> Shape() && startSlot < maxSteps)
      modifies buf
      ensures var n := if numSlots > maxSteps then maxSteps else numSlots;
              forall j: nat :: j < maxSteps ==>
                && SlotAt(j)[2..] == old(SlotAt(j))[2..]
                && (InRange(startSlot, n, j, maxSteps) ==> Empty(SlotAt(j)))
                && (!InRange(startSlot, n, j, maxSteps) ==> SlotAt(j) == old(SlotAt(j)))
    {
      var n := if numSlots > maxSteps then maxSteps else numSlots;
      for i := 0 to n
        invariant forall j: nat :: j < maxSteps ==>
                    && SlotAt(j)[2..] == old(SlotAt(j))[2..]
                    && (InRange(startSlot, i, j, maxSteps) ==> Empty(SlotAt(j)))
                    && (!InRange(startSlot, i, j, maxSteps) ==> SlotAt(j) == old(SlotAt(j)))
      {
        var off := Offset(startSlot + i);
        ghost var w := WrapOf(startSlot + i, maxSteps);
        Put(w, off, Be16(INVALID_PKT_SIZE));
        assert forall j: nat :: j < maxSteps ==>
            (InRange(startSlot, i + 1, j, maxSteps) <==> InRange(startSlot, i, j, maxSteps) || j == w);
      }
    }

    /**
     Stores a packet; the code checks nothing, so that one longer than a slot goes on in the next
     slot (LongPacketOverwritesNext), and beyond the end of the buffer, where the Go code panics.
     */
    method Store(ghost j: nat, off: nat, pkt: seq<byte>) returns (stored: seq<byte>)
      requires Shape() && j < maxSteps && off == MAX_PKT_SIZE * j
      requires |pkt| < 0x1_0000 && off + PKT_SIZE_HEADER + |pkt| <= buf.Length
      modifies buf
      ensures stored == pkt && buf[..] == Written(old(buf[..]), off, Be16(|pkt|) + pkt)
      ensures |pkt| <= MAX_PKT_SIZE - PKT_SIZE_HEADER ==>
                Holds(SlotAt(j), pkt) && forall i: nat :: i < maxSteps && i != j ==> SlotAt(i) == old(SlotAt(i))
    {
      ghost var before := buf[..];
      Copy(off, Be16(|pkt|));
      Copy(off + PKT_SIZE_HEADER, pkt);
      WrittenTwice(before, off, Be16(|pkt|), pkt);
      if |pkt| <= MAX_PKT_SIZE - PKT_SIZE_HEADER {
        WriteSlot(before, buf[..], j, 0, Be16(|pkt|) + pkt);
        StoredSlot(Slot(before, j), pkt);
      }
      stored := buf[off + PKT_SIZE_HEADER..off + PKT_SIZE_HEADER + |pkt|];
    }

    // ------------------------------------------------------------ operations

    /** A bucket over a buffer that may hold anything from an earlier use; only one with room for a slot is of use. */
    constructor (buffer: array<byte>)
      modifies buffer
      ensures buf == buffer && !init && !resyncOnNextPacket && maxSteps == buffer.Length / MAX_PKT_SIZE
      ensures maxSteps > 0 ==> Valid()
      ensures ring == Ring(0, map[]) && step == 0
      ensures forall j: nat :: j < maxSteps ==> Tag(j) == TagOf(Slot(old(buffer[..]), j))
    {
      buf := buffer;
      maxSteps := buffer.Length / MAX_PKT_SIZE;
      init, resyncOnNextPacket, step, headSN := false, false, 0, 0;
      ring := Ring(0, map[]);
      new;
      Invalidate(0, maxSteps);
      forall j: nat | j < maxSteps ensures TagOf(SlotAt(j)) == TagOf(Slot(old(buffer[..]), j)) {
        SameTag(SlotAt(j), Slot(old(buffer[..]), j));
      }
    }

    method ResyncOnNextPacket()
      requires Valid()
      modifies this`resyncOnNextPacket
      ensures Valid() && resyncOnNextPacket
    {
      resyncOnNextPacket := true;
    }

    /** The unwrapped number that a request for a 16-bit number at or behind the head means. */
    ghost function Behind(sn: u16): int
      reads this
    {
      ring.head - Sub16(headSN, sn)
    }

    /** A packet that is readable shows its number in its slot. */
    lemma SlotShowsNumber(sn: u16, diff: nat)
      requires Valid() && init && diff == Sub16(headSN, sn) && diff < maxSteps
      ensures SlotFor(SlotAt(SlotIndex(step, diff, maxSteps)), ring.live, ring.head - diff)
      ensures ring.head - diff in ring.live ==> Tag(SlotIndex(step, diff, maxSteps)) == sn
    {
      var key := ring.head - diff;
      assert SlotFor(SlotAt(SlotIndex(step, diff, maxSteps)), ring.live, key);
      if key in ring.live {
        TagOfHeld(SlotAt(SlotIndex(step, diff, maxSteps)), ring.live[key]);
        BehindBits(ring.head, sn);
      }
    }

    /** The packet a number reads as: the one the ring has for the nearest number at or below the head. */
    method Get(sn: u16) returns (p: Result<seq<byte>>)
      requires Valid()
      ensures p == if init && Sub16(headSN, sn) < maxSteps && Behind(sn) in ring.live then Ok(ring.live[Behind(sn)])
                   else Err(PacketNotFound)
    {
      var diff := Sub16(headSN, sn);
      if diff >= maxSteps {
        return Err(PacketNotFound);
      }
      var off := Offset(step - diff - 1);
      ghost var j, key := SlotIndex(step, diff, maxSteps), ring.head - diff;
      assert off == MAX_PKT_SIZE * j;
      SlotShows(buf[..], j, off);
      assert SlotFor(SlotAt(j), ring.live, key);
      if key in ring.live {
        SlotShowsNumber(sn, diff);
      }
      if FromBe16(buf[off + 4], buf[off + 5]) != sn {
        return Err(PacketNotFound);
      }
      var sz := FromBe16(buf[off], buf[off + 1]);
      if sz == INVALID_PKT_SIZE {
        return Err(PacketNotFound);
      }
      assert sz == |ring.live[key]|;
      SliceOfSlot(buf[..], j, PKT_SIZE_HEADER, sz);
      p := Ok(buf[off + 2..off + 2 + sz]);
    }

    /** Fills the slot of the number d below the head. */
    method Fill(d: nat, pkt: seq<byte>) returns (stored: seq<byte>)
      requires Shape() && d < maxSteps && |pkt| <= MAX_PKT_SIZE - PKT_SIZE_HEADER
      modifies buf
      ensures stored == pkt && Holds(SlotAt(SlotIndex(step, d, maxSteps)), pkt)
      ensures forall e: nat :: e < maxSteps && e != d ==>
                SlotAt(SlotIndex(step, e, maxSteps)) == old(SlotAt(SlotIndex(step, e, maxSteps)))
      ensures forall j: nat :: j < maxSteps && j != SlotIndex(step, d, maxSteps) ==> SlotAt(j) == old(SlotAt(j))
    {
      var off := Offset(step - d - 1);
      ghost var j := SlotIndex(step, d, maxSteps);
      assert off == MAX_PKT_SIZE * j;
      stored := Store(j, off, pkt);
      forall e: nat | e < maxSteps && e != d
        ensures SlotAt(SlotIndex(step, e, maxSteps)) == old(SlotAt(SlotIndex(step, e, maxSteps)))
      {
        IndexInjective(step, d, e, maxSteps);
      }
    }

    /** A late packet: stored unless it is too old or its slot's bytes already show its number. */
    method Set(sn: u16, pkt: seq<byte>) returns (r: Result<seq<byte>>)
      requires Valid() && init && 4 <= |pkt| <= MAX_PKT_SIZE - PKT_SIZE_HEADER && SeqNum(pkt) == sn
      modifies this`ring, buf
      ensures Valid()
      ensures var diff := Sub16(headSN, sn);
              var key := old(ring).head - diff;
              if diff >= maxSteps then r == Err(PacketTooOld) && ring == old(ring)
              else if old(Tag(SlotIndex(step, diff, maxSteps))) == sn then r == Err(RtxPacket) && ring == old(ring)
              else key !in old(ring).live && r == Ok(pkt) && ring == old(ring).(live := old(ring).live[key := pkt])
      ensures r.Ok? ==> forall j: nat :: j < maxSteps && j != SlotIndex(step, Sub16(headSN, sn), maxSteps) ==>
              Tag(j) == old(Tag(j))
      ensures r.Err? ==> buf[..] == old(buf[..])
    {
      var diff := Sub16(headSN, sn);
      if diff >= maxSteps {
        return Err(PacketTooOld);
      }
      var off := Offset(step - diff - 1);
      ghost var j := SlotIndex(step, diff, maxSteps);
      assert off == MAX_PKT_SIZE * j;
      SlotShowsNumber(sn, diff);
      SlotShows(buf[..], j, off);
      if FromBe16(buf[off + 4], buf[off + 5]) == sn {
        return Err(RtxPacket);
      }
      BehindBits(ring.head, sn);
      r := Insert(diff, pkt);
    }

    /** The packet of the number d below the head, which has none yet. */
    method Insert(d: nat, pkt: seq<byte>) returns (r: Result<seq<byte>>)
      requires Valid() && init && d < maxSteps && ring.head - d !in ring.live
      requires 4 <= |pkt| <= MAX_PKT_SIZE - PKT_SIZE_HEADER && SeqNum(pkt) == Low16(ring.head - d)
      modifies this`ring, buf
      ensures Valid() && r == Ok(pkt) && ring == old(ring).(live := old(ring).live[old(ring).head - d := pkt])
      ensures forall j: nat :: j < maxSteps && j != SlotIndex(step, d, maxSteps) ==> Tag(j) == old(Tag(j))
    {
      var stored := Fill(d, pkt);
      ring := ring.(live := ring.live[ring.head - d := pkt]);
      forall e: nat | e < maxSteps
        ensures SlotFor(SlotAt(SlotIndex(step, e, maxSteps)), ring.live, ring.head - e)
      {
        assert old(SlotFor(SlotAt(SlotIndex(step, e, maxSteps)), ring.live, ring.head - e));
      }
      r := Ok(stored);
    }

    /** Empties the slots of the gap and stores the packet in the one behind them. */
    method StoreBehindGap(gap: nat, pkt: seq<byte>) returns (stored: seq<byte>)
      requires Shape() && |pkt| <= MAX_PKT_SIZE - PKT_SIZE_HEADER
      modifies buf
      ensures stored == pkt && Holds(SlotAt(WrapOf(step + gap, maxSteps)), pkt)
      ensures var n := if gap > maxSteps then maxSteps else gap;
              forall j: nat :: j < maxSteps && j != WrapOf(step + gap, maxSteps) ==>
                && Tag(j) == old(Tag(j))
                && (InRange(step, n, j, maxSteps) ==> Empty(SlotAt(j)))
                && (!InRange(step, n, j, maxSteps) ==> SlotAt(j) == old(SlotAt(j)))
    {
      Invalidate(step, gap);
      label Emptied:
      var off := Offset(step + gap);
      ghost var at := WrapOf(step + gap, maxSteps);
      stored := Store(at, off, pkt);
      forall j: nat | j < maxSteps && j != at
        ensures SlotAt(j) == old@Emptied(SlotAt(j)) && Tag(j) == old(Tag(j))
      {
        SameTag(old@Emptied(SlotAt(j)), old(SlotAt(j)));
      }
    }

    /** Moves the window on by gap + 1 numbers: empty slots for the gap, the packet in the last one. */
    method Shift(gap: nat, pkt: seq<byte>) returns (stored: seq<byte>)
      requires Shape() && |pkt| <= MAX_PKT_SIZE - PKT_SIZE_HEADER
      modifies this`step, buf
      ensures Shape() && stored == pkt && Holds(SlotAt(SlotIndex(step, 0, maxSteps)), pkt)
      ensures forall d: nat :: 0 < d < maxSteps && d <= gap ==> Empty(SlotAt(SlotIndex(step, d, maxSteps)))
      ensures forall d: nat :: gap < d < maxSteps ==>
                SlotAt(SlotIndex(step, d, maxSteps)) == old(SlotAt(SlotIndex(step, d - gap - 1, maxSteps)))
      ensures forall j: nat :: j < maxSteps && j != SlotIndex(step, 0, maxSteps) ==> Tag(j) == old(Tag(j))
    {
      ghost var oldStep := step;
      stored := StoreBehindGap(gap, pkt);
      step := Wrap(step + gap + 1);
      WrapNext(oldStep + gap, maxSteps);
      forall d: nat | 0 < d < maxSteps
        ensures d <= gap ==> Empty(SlotAt(SlotIndex(step, d, maxSteps)))
        ensures d > gap ==> SlotAt(SlotIndex(step, d, maxSteps)) == old(SlotAt(SlotIndex(step, d - gap - 1, maxSteps)))
      {
        ghost var i := SlotIndex(step, d, maxSteps);
        IndexAfterAnyGap(oldStep, step, gap, d, maxSteps);
        assert i != WrapOf(oldStep + gap, maxSteps);
      }
    }

    /** A packet ahead of the head: the numbers in between get empty slots, and the window moves. */
    method Push(sn: u16, pkt: seq<byte>) returns (r: Result<seq<byte>>)
      requires Shape() && Sound(ring, maxSteps) && Represents(ring) && headSN == Low16(ring.head)
      requires 4 <= |pkt| <= MAX_PKT_SIZE - PKT_SIZE_HEADER && SeqNum(pkt) == sn && sn != headSN
      modifies this`headSN, this`step, this`ring, buf
      ensures Shape() && Sound(ring, maxSteps) && Represents(ring) && headSN == sn == Low16(ring.head)
      ensures ring == Advance(old(ring), maxSteps, old(ring).head + Sub16(sn, old(headSN)), pkt)
      ensures r == Ok(pkt)
      ensures forall j: nat :: j < maxSteps && j != SlotIndex(step, 0, maxSteps) ==> Tag(j) == old(Tag(j))
    {
      var diff := Sub16(sn, headSN) - 1;
      AheadBits(ring.head, sn);
      headSN := sn;
      ghost var before, from := buf[..], step;
      var stored := Shift(diff, pkt);
      ring := Advance(ring, maxSteps, ring.head + diff + 1, pkt);
      AdvanceKeepsSound(old(ring), maxSteps, ring.head, pkt);
      WindowAdvanced(before, buf[..], from, step, maxSteps, old(ring), diff, pkt);
      r := Ok(stored);
    }

    /** The unwrapped number an added packet is filed under. */
    ghost function KeyFor(sn: u16): int
      reads this
    {
      if !init then sn else Unwrap(ring.head, sn)
    }

    /** Adds a packet; what a call may do is BucketRing.Next, and every error is decided exactly. */
    method AddPacket(pkt: seq<byte>) returns (r: Result<seq<byte>>)
      requires Valid() && 4 <= |pkt| <= MAX_PKT_SIZE - PKT_SIZE_HEADER
      modifies this, buf
      ensures Valid() && init && !resyncOnNextPacket
      ensures var sn := SeqNum(pkt);
              var key := old(KeyFor(sn));
              var restart := old(!init || resyncOnNextPacket);
              var diff := old(ring).head - key;
              && Next(old(ring), maxSteps, if restart then Restarted(key, pkt) else Added(key, pkt, r.Ok?), ring)
              && (r.Ok? ==> r.value == pkt)
              && (r == Err(PacketTooOld) <==> !restart && diff >= maxSteps)
              && (r == Err(RtxPacket) <==>
                    !restart && 0 <= diff < maxSteps && old(Tag(SlotIndex(step, diff, maxSteps))) == sn)
              && (r.Err? ==> r.error == PacketTooOld || r.error == RtxPacket)
              && (!restart && key in old(ring).live ==> r == Err(RtxPacket))
      ensures r.Ok? ==> forall j: nat ::
                j < maxSteps && j != SlotIndex(step, ring.head - old(KeyFor(SeqNum(pkt))), maxSteps) ==>
                    Tag(j) == old(Tag(j))
      ensures r.Err? ==> buf[..] == old(buf[..])
    {
      if !init || resyncOnNextPacket {
        r := Restart(SeqNum(pkt), pkt, KeyFor(SeqNum(pkt)));
      } else {
        r := AddRunning(SeqNum(pkt), pkt);
      }
    }

    /** The packets after the first one. */
    method AddRunning(sn: u16, pkt: seq<byte>) returns (r: Result<seq<byte>>)
      requires Valid() && 4 <= |pkt| <= MAX_PKT_SIZE - PKT_SIZE_HEADER && SeqNum(pkt) == sn
      requires init && !resyncOnNextPacket
      modifies this`headSN, this`step, this`ring, buf
      ensures Valid() && Next(old(ring), maxSteps, Added(Unwrap(old(ring).head, sn), pkt, r.Ok?), ring)
      ensures var diff := old(ring).head - Unwrap(old(ring).head, sn);
              && (diff >= maxSteps ==> r == Err(PacketTooOld))
              && (0 <= diff < maxSteps && old(Tag(SlotIndex(step, diff, maxSteps))) == sn ==> r == Err(RtxPacket))
              && (0 <= diff < maxSteps && old(Tag(SlotIndex(step, diff, maxSteps))) != sn ==> r == Ok(pkt))
              && (diff < 0 ==> r == Ok(pkt))
      ensures Unwrap(old(ring).head, sn) in old(ring).live ==> r == Err(RtxPacket)
      ensures r.Ok? ==> forall j: nat ::
                j < maxSteps && j != SlotIndex(step, ring.head - Unwrap(old(ring).head, sn), maxSteps) ==>
                    Tag(j) == old(Tag(j))
      ensures r.Err? ==> buf[..] == old(buf[..])
    {
      var diff := Sub16(sn, headSN);
      AheadOrLate(ring.head, sn);
      if diff == 0 || diff > 0x8000 {
        r := AddLate(sn, pkt);
      } else {
        r := Push(sn, pkt);
      }
    }

    /** A packet at or behind the head. */
    method AddLate(sn: u16, pkt: seq<byte>) returns (r: Result<seq<byte>>)
      requires Valid() && 4 <= |pkt| <= MAX_PKT_SIZE - PKT_SIZE_HEADER && SeqNum(pkt) == sn
      requires init && !resyncOnNextPacket && Unwrap(ring.head, sn) == ring.head - Sub16(headSN, sn)
      modifies this`ring, buf
      ensures Valid() && Next(old(ring), maxSteps, Added(Unwrap(old(ring).head, sn), pkt, r.Ok?), ring)
      ensures var d := Sub16(headSN, sn);
              && (d >= maxSteps ==> r == Err(PacketTooOld))
              && (d < maxSteps && old(Tag(SlotIndex(step, d, maxSteps))) == sn ==> r == Err(RtxPacket))
              && (d < maxSteps && old(Tag(SlotIndex(step, d, maxSteps))) != sn ==> r == Ok(pkt))
      ensures ring.head == old(ring).head
      ensures ring.head - Sub16(headSN, sn) in old(ring).live ==> r == Err(RtxPacket)
      ensures r.Ok? ==> forall j: nat :: j < maxSteps && j != SlotIndex(step, Sub16(headSN, sn), maxSteps) ==>
                Tag(j) == old(Tag(j))
      ensures r.Err? ==> buf[..] == old(buf[..])
    {
      ghost var d := Sub16(headSN, sn);
      if d < maxSteps {
        SlotShowsNumber(sn, d);
      }
      r := Set(sn, pkt);
    }

    /** The first packet, or the first after a resync request: it becomes the only one. */
    method Restart(sn: u16, pkt: seq<byte>, ghost key: int) returns (r: Result<seq<byte>>)
      requires Valid() && 4 <= |pkt| <= MAX_PKT_SIZE - PKT_SIZE_HEADER && SeqNum(pkt) == sn
      requires (!init || resyncOnNextPacket) && Low16(key) == sn
      modifies this, buf
      ensures Valid() && init && !resyncOnNextPacket && r == Ok(pkt) && ring == Ring(key, map[key := pkt])
      ensures forall j: nat :: j < maxSteps && j != SlotIndex(step, 0, maxSteps) ==> Tag(j) == old(Tag(j))
    {
      if !init {
        headSN := Sub16(sn, 1);
        init := true;
      }
      if resyncOnNextPacket {
        resyncOnNextPacket := false;
        headSN := Sub16(sn, 1);
        Invalidate(0, maxSteps);
        forall j: nat | j < maxSteps ensures Tag(j) == old(Tag(j)) {
          SameTag(SlotAt(j), old(SlotAt(j)));
        }
      }
      ghost var none := Ring(key - 1, map[]);
      assert Represents(none) by {
        forall d: nat | d < maxSteps ensures Empty(SlotAt(SlotIndex(step, d, maxSteps))) {
          assert old(SlotFor(SlotAt(SlotIndex(step, d, maxSteps)), ring.live, ring.head - d));
        }
      }
      ring := none;
      RestartBits(key, sn);
      r := Push(sn, pkt);
      assert Advance(none, maxSteps, key, pkt) == Ring(key, map[key := pkt]);
    }

    /**
     Reads a packet into a caller's buffer: the one the ring has for the number, or an error that
     says whether there is none or it does not fit. The array is as long as the capacity of the Go
     slice; the slice's own length, which decides nothing, is a parameter.
     */
    method GetPacket(dst: array<byte>, length: nat, sn: u16) returns (i: nat, err: Result<()>)
      requires Valid() && dst != buf && length <= dst.Length
      modifies dst
      ensures Valid()
      ensures var found := init && Sub16(headSN, sn) < maxSteps && Behind(sn) in ring.live;
              if !found then i == 0 && err == Err(PacketNotFound) && dst[..] == old(dst[..])
              else
                && i == |ring.live[Behind(sn)]|
                && (dst.Length < i ==> err == Err(BufferTooSmall) && dst[..] == old(dst[..]))
                && (dst.Length >= i ==>
                      err == Ok(()) && dst[..i] == ring.live[Behind(sn)] && dst[i..] == old(dst[i..]))
    {
      var p := Get(sn);
      if p.Err? {
        return 0, Err(PacketNotFound);
      }
      i := |p.value|;
      if dst.Length < i {
        return i, Err(BufferTooSmall);
      }
      var room := if length < i then i else length;
      for x := 0 to if i < room then i else room
        invariant dst[..x] == p.value[..x] && dst[x..] == old(dst[x..])
      {
        dst[x] := p.value[x];
        assert dst[..x + 1] == dst[..x] + [p.value[x]];
        assert dst[x + 1..] == dst[x..][1..];
      }
      err := Ok(());
    }
  }

  lemma RestartBits(key: int, sn: u16)
    requires Low16(key) == sn
    ensures Sub16(sn, 1) == Low16(key - 1) && Sub16(sn, 1) != sn && Sub16(sn, Sub16(sn, 1)) == 1
  {
    Low16Sum(key, 1);
  }

  lemma AheadBits(head: int, sn: u16)
    ensures Low16(head + Sub16(sn, Low16(head))) == sn
  {
    Low16Sum(head, Sub16(sn, Low16(head)));
  }

  /** The code's test on the wrapped difference finds the side of the head the nearest number is on. */
  lemma AheadOrLate(head: int, sn: u16)
    ensures var diff := Sub16(sn, Low16(head));
            Unwrap(head, sn) == if diff == 0 || diff > 0x8000 then head - Sub16(Low16(head), sn) else head + diff
  {}

  /**
   The converse of "a readable packet is refused as a duplicate" fails: in a fresh bucket over
   zero bytes, number 0 arriving right after number 1 is refused although it was never stored,
   because its slot's bytes already show 0.
   */
  method FreshSlotLooksLikeNumberZero(first: seq<byte>, late: seq<byte>) returns (r: Result<seq<byte>>)
    requires 4 <= |first| <= 1498 && 4 <= |late| <= 1498
    requires SeqNum(first) == 1 && SeqNum(late) == 0
    ensures r == Err(RtxPacket)
  {
    var b := FreshBucketWithOne(first);
    assert b.ring.head - 0 == 1 && 0 !in b.ring.live;
    assert Unwrap(1, 0) == 0;
    r := b.AddPacket(late);
  }

  /** A bucket of two slots over zero bytes, after its first packet. */
  method FreshBucketWithOne(first: seq<byte>) returns (b: Bucket)
    requires 4 <= |first| <= 1498 && SeqNum(first) == 1
    ensures fresh(b) && fresh(b.buf) && b.Valid() && b.maxSteps == 2 && b.init && !b.resyncOnNextPacket
    ensures b.ring == Ring(1, map[1 := first]) && b.Tag(SlotIndex(b.step, 1, 2)) == 0
  {
    var buffer := new byte[2 * MAX_PKT_SIZE](_ => 0);
    b := new Bucket(buffer);
    assert forall j: nat :: j < 2 ==> b.Tag(j) == 0;
    var a := b.AddPacket(first);
  }
}
