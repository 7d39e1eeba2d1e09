/**
 When a lost packet is requested: the life of one skipped number in a run of the buffer's calls,
 from the packet that skips it on.
 */
module LossRequests {
  import opened Words
  import opened SequenceCounter
  import opened NackQueue
  import opened LossLedger

  /** The queue, the counter and the ledger of a buffer. */
  datatype State = State(queue: seq<Nack>, counter: Counter, first: int, head: int, arrived: set<int>,
                         dropped: set<int>)

  /** A packet with its true number, and whether the call gets as far as the requests. */
  datatype Packet = Packet(number: int, asks: bool)

  ghost predicate Exact(s: State) {
    && Ext(s.counter) == s.head && s.head in s.arrived && UpTo(s.arrived, s.dropped, s.head)
    && Ledger(s.queue, s.first, s.head, s.arrived, s.dropped)
  }

  /** The packet is next to the head, and its gap fits the queue and gets its own cycle. */
  ghost predicate Clean(s: State, p: Packet) {
    var gap := GapSize(s.counter, Low16(p.number));
    && InReach(s.head, p.number) && 0 <= p.number < 0x1_0000_0000
    && |s.queue| + gap < 100 && GapPicked(s.counter, Low16(p.number), gap)
  }

  /** The queue once the packet is counted, before any request. */
  function Counted(s: State, p: Packet): seq<Nack> {
    AfterPacket(s.queue, s.counter, Low16(p.number))
  }

  /** What a call does to the queue, the counter and the ledger. */
  function Next(s: State, p: Packet): State {
    var q, c := Counted(s, p), Step(s.counter, Low16(p.number));
    var head, arrived := Max(s.head, p.number), s.arrived + {p.number};
    if p.asks then State(AfterPairs(q, Ext(c)), c, s.first, head, arrived, s.dropped + ExhaustedNumbers(q))
    else State(q, c, s.first, head, arrived, s.dropped)
  }

  lemma NextIsExact(s: State, p: Packet)
    requires Exact(s) && Clean(s, p)
    ensures Exact(Next(s, p)) && Ledger(Counted(s, p), s.first, Next(s, p).head, Next(s, p).arrived, s.dropped)
  {
    var sn, q := Low16(p.number), Counted(s, p);
    var head, arrived := Max(s.head, p.number), s.arrived + {p.number};
    PacketKeepsLedger(s.queue, s.counter, s.first, s.head, p.number, sn, s.arrived, s.dropped);
    Low32Small(s.head);
    Low32Small(p.number);
    StepIsCorrect(s.counter, s.head, p.number);
    if p.asks {
      RequestsKeepLedger(q, s.first, head, arrived, s.dropped, head);
      LedgerBound(q, s.first, head, arrived, s.dropped);
    }
  }

  lemma Low32Small(x: u32)
    ensures Low32(x) == x
  {}

  // ---------------------------------------------------------------- one entry

  lemma PushKeepsEntry(q: seq<Nack>, t: u32, e: Nack)
    requires |q| + 1 < 100 && e in q
    ensures e in AfterPush(q, t)
  {
    var i := Position(q, t);
    if !(i < |q| && q[i].sn == t) {
      var k :| 0 <= k < |q| && q[k] == e;
      Inserted(q, i, t);
      assert InsertAt(q, i, t)[if k < i then k else k + 1] == e;
    }
  }

  lemma PushMakesEntry(q: seq<Nack>, t: u32)
    requires |q| + 1 < 100 && Inv(q) && !Contains(q, t)
    ensures Nack(t, 0) in AfterPush(q, t)
  {
    var i := Position(q, t);
    PositionIsLowerBound(q, t);
    Inserted(q, i, t);
    assert InsertAt(q, i, t)[i] == Nack(t, 0);
  }

  lemma RemoveKeepsEntry(q: seq<Nack>, t: u32, e: Nack)
    requires e in q && e.sn != t
    ensures e in AfterRemove(q, t)
  {
    var i := Position(q, t);
    if i < |q| && q[i].sn == t {
      var k :| 0 <= k < |q| && q[k] == e;
      assert (q[..i] + q[i + 1..])[if k < i then k else k - 1] == e;
    }
  }

  /** The queue r has all entries of q, and the k numbers below top as never requested. */
  ghost predicate Extends(q: seq<Nack>, r: seq<Nack>, top: int, k: nat) {
    && (forall e :: e in q ==> e in r)
    && (forall t: u32 :: top - k <= t < top ==> Nack(t, 0) in r)
  }

  lemma ExtendsOne(q: seq<Nack>, r: seq<Nack>, top: int, k: nat, t: u32)
    requires Extends(q, r, top, k) && |r| + 1 < 100 && Inv(r) && !Contains(r, t) && t == top - k - 1
    ensures Extends(q, AfterPush(r, t), top, k + 1)
  {
    PushMakesEntry(r, t);
    forall e | e in r ensures e in AfterPush(r, t) {
      PushKeepsEntry(r, t, e);
    }
  }

  lemma {:induction false} GapEntries(q: seq<Nack>, c: Counter, head: int, sn: u16, k: u16)
    requires Ext(c) == head && Ahead(c, sn) && k <= GapSize(c, sn) && head + Sub16(sn, c.maxSeqNo) < 0x1_0000_0000
    requires Inv(q) && Unique(q) && |q| + k < 100 && NoneFrom(q, head) && GapPicked(c, sn, k)
    ensures Extends(q, PushGap(q, Step(c, sn).cycles, c.maxSeqNo, sn, k), head + Sub16(sn, c.maxSeqNo), k)
  {
    if k > 0 {
      var before, top := PushGap(q, Step(c, sn).cycles, c.maxSeqNo, sn, k - 1), head + Sub16(sn, c.maxSeqNo);
      GapEntries(q, c, head, sn, k - 1);
      GapPushed(q, c, head, sn, k - 1);
      SkippedNumber(c, head, sn, k);
      NotYetAdded(q, before, top, k - 1, head);
      assert PushGap(q, Step(c, sn).cycles, c.maxSeqNo, sn, k) == AfterPush(before, top - k);
      ExtendsOne(q, before, top, k - 1, top - k);
    }
  }

  lemma NotYetAdded(q: seq<Nack>, r: seq<Nack>, top: int, k: nat, head: int)
    requires Added(q, r, top, k) && NoneFrom(q, head) && head <= top - k - 1 < 0x1_0000_0000 && head >= 0
    ensures !Contains(r, top - k - 1)
  {}

  /** Counting a packet keeps every entry but the packet's own, and adds the skipped numbers as never requested. */
  lemma CountedEntries(s: State, p: Packet)
    requires Exact(s) && Clean(s, p)
    ensures forall e :: e in s.queue && e.sn != p.number ==> e in Counted(s, p)
    ensures forall t: u32 :: s.head < t < p.number ==> Nack(t, 0) in Counted(s, p)
  {
    var sn := Low16(p.number);
    InReachShows(s.counter, s.head, p.number);
    if p.number >= s.head {
      LedgerNoneFrom(s.queue, s.first, s.head, s.arrived, s.dropped);
      GapEntries(s.queue, s.counter, s.head, sn, GapSize(s.counter, sn));
      assert Extends(s.queue, Counted(s, p), p.number, GapSize(s.counter, sn));
    } else {
      LateNumberIsCorrect(s.counter, sn);
      Behind32(s.head, s.head - p.number);
      forall e | e in s.queue && e.sn != p.number ensures e in Counted(s, p) {
        RemoveKeepsEntry(s.queue, p.number, e);
      }
    }
  }

  // ---------------------------------------------------------------- runs

  function After(s: State, ps: seq<Packet>, n: nat): State
    requires n <= |ps|
  {
    if n == 0 then s else Next(After(s, ps, n - 1), ps[n - 1])
  }

  ghost predicate CleanRun(s: State, ps: seq<Packet>) {
    Exact(s) && forall n: nat :: n < |ps| ==> Clean(After(s, ps, n), ps[n])
  }

  lemma {:induction false} RunIsExact(s: State, ps: seq<Packet>, n: nat)
    requires CleanRun(s, ps) && n <= |ps|
    ensures Exact(After(s, ps, n))
  {
    if n > 0 {
      RunIsExact(s, ps, n - 1);
      NextIsExact(After(s, ps, n - 1), ps[n - 1]);
    }
  }

  /** A call asks with a head at least three above the number. */
  predicate DueAt(s: State, ps: seq<Packet>, x: u32, n: nat)
    requires n < |ps|
  {
    ps[n].asks && After(s, ps, n + 1).head >= x + 3
  }

  /** How many of the calls from k up to n did. */
  function DueCalls(s: State, ps: seq<Packet>, x: u32, k: nat, n: nat): nat
    requires k <= n <= |ps|
  {
    if n == k then 0 else DueCalls(s, ps, x, k, n - 1) + if DueAt(s, ps, x, n - 1) then 1 else 0
  }

  /** The call asks for the number: its entry counts one more request, and its low bits are among those sent. */
  ghost predicate Asks(s: State, p: Packet, x: u32) {
    && p.asks
    && (exists e :: e in Counted(s, p) && e.sn == x && Nack(x, e.nacked + 1) in Next(s, p).queue)
    && Low16(x) in ToRequest(Counted(s, p), Ext(Next(s, p).counter))
  }

  /** Where the number is after d due calls: in the queue with that count, or given up after five. */
  ghost predicate Lives(s: State, x: u32, d: nat) {
    if x in s.dropped then d >= 5 && !Contains(s.queue, x)
    else d <= 5 && Nack(x, d) in s.queue
  }

  /** What a round of requests does to an entry. */
  lemma EntryAsked(q: seq<Nack>, r: seq<Nack>, head: u32, x: u32, d: nat)
    requires Inv(q) && Unique(q) && Nack(x, d) in q && d <= 5 && 0 < x < head && r == AfterPairs(q, head)
    ensures (exists e :: e in q && e.sn == x && Nack(x, e.nacked + 1) in r) && Low16(x) in ToRequest(q, head) <==>
            head >= x + 3 && d < 5
    ensures if d == 5 then !Contains(r, x) else Nack(x, if head >= x + 3 then d + 1 else d) in r
  {
    RoundRequestsIff(q, head, Low16(x));
    RoundLeaves(q, head, Nack(x, d));
    forall e | e in q && e.sn == x ensures e == Nack(x, d) {
      var i, j :| 0 <= i < |q| && 0 <= j < |q| && q[i] == e && q[j] == Nack(x, d);
    }
    if Nack(x, d + 1) in r {
      var k :| 0 <= k < |r| && r[k] == Nack(x, d + 1);
      assert r[k].sn == x;
    }
  }

  /** One call: the number is asked for exactly if the call is due and fewer than five were before. */
  lemma LivesOn(s: State, p: Packet, q: seq<Nack>, x: u32, d: nat)
    requires Exact(s) && Clean(s, p) && q == Counted(s, p) && x != p.number && s.first < x < Next(s, p).head
    requires if x in s.dropped then d >= 5 && !Contains(q, x) else d <= 5 && Nack(x, d) in q
    ensures var due := p.asks && Next(s, p).head >= x + 3;
            && (Asks(s, p, x) <==> due && d < 5)
            && Lives(Next(s, p), x, if due then d + 1 else d)
  {
    NextIsExact(s, p);
    var r := Next(s, p);
    if p.asks {
      if x in s.dropped {
        NotAsked(q, r.queue, r.head, x);
      } else {
        EntryAsked(q, r.queue, r.head, x, d);
        GivenUpIff(q, x, d);
      }
    }
  }

  lemma NotAsked(q: seq<Nack>, r: seq<Nack>, head: u32, x: u32)
    requires !Contains(q, x) && r == AfterPairs(q, head)
    ensures !Contains(r, x) && forall e :: e in q ==> e.sn != x
  {
    AfterPairsEntries(q, head);
    forall e | e in q ensures e.sn != x {
      var k :| 0 <= k < |q| && q[k] == e;
    }
    forall k | 0 <= k < |r| ensures r[k].sn != x {
      assert r[k] in r;
      var y :| y in q && !Exhausted(y) && r[k] == NackQueue.Counted(y, head);
    }
  }

  lemma GivenUpIff(q: seq<Nack>, x: u32, d: nat)
    requires Unique(q) && Nack(x, d) in q && d <= 5
    ensures x in ExhaustedNumbers(q) <==> d == 5
  {
    if x in ExhaustedNumbers(q) {
      var n :| n in q && Exhausted(n) && n.sn == x;
      var i, j :| 0 <= i < |q| && 0 <= j < |q| && q[i] == n && q[j] == Nack(x, d);
    }
  }

  /** What one call does for a number that was lost before it, or that its packet skips. */
  ghost predicate Moves(s: State, p: Packet, x: u32, d: nat) {
    var r := Next(s, p);
    var due := p.asks && r.head >= x + 3;
    r.first < x < r.head && (Asks(s, p, x) <==> due && d < 5) && Lives(r, x, if due then d + 1 else d)
  }

  lemma SkippedMoves(s: State, p: Packet, x: u32)
    requires Exact(s) && Clean(s, p) && s.head < x < p.number
    ensures Moves(s, p, x, 0)
  {
    CountedEntries(s, p);
    assert x !in s.dropped && Nack(x, 0) in Counted(s, p) && Next(s, p).head == p.number;
    LivesOn(s, p, Counted(s, p), x, 0);
  }

  lemma LostMoves(s: State, p: Packet, x: u32, d: nat)
    requires Exact(s) && Clean(s, p) && x != p.number && s.first < x < s.head && Lives(s, x, d)
    ensures Moves(s, p, x, d)
  {
    CountedEntries(s, p);
    NextIsExact(s, p);
    assert x !in s.dropped ==> Nack(x, d) in s.queue;
    LivesOn(s, p, Counted(s, p), x, d);
  }

  /** At call n, the number that packet k skipped is where the due calls have brought it. */
  lemma {:induction false} LostLives(s: State, ps: seq<Packet>, x: u32, k: nat, n: nat)
    requires CleanRun(s, ps) && k <= n < |ps| && After(s, ps, k).head < x < ps[k].number
    requires forall i :: k < i <= n ==> ps[i].number != x
    ensures Moves(After(s, ps, n), ps[n], x, DueCalls(s, ps, x, k, n))
  {
    var now, p := After(s, ps, n), ps[n];
    RunIsExact(s, ps, n);
    assert Clean(now, p);
    if k == n {
      SkippedMoves(now, p, x);
    } else {
      LostLives(s, ps, x, k, n - 1);
      LostMoves(now, p, x, DueCalls(s, ps, x, k, n));
    }
  }

  /**
   Take any run of packets whose gaps are clean, a number x that packet k skips, and a later packet
   j before which x has not arrived. Then call j asks for x exactly when the head is at least x + 3
   by then and fewer than five calls since packet k asked with such a head.
   */
  lemma LostIsRequestedIff(s: State, ps: seq<Packet>, x: u32, k: nat, j: nat)
    requires CleanRun(s, ps) && k <= j < |ps| && After(s, ps, k).head < x < ps[k].number
    requires forall i :: k < i <= j ==> ps[i].number != x
    ensures Asks(After(s, ps, j), ps[j], x) <==>
            ps[j].asks && After(s, ps, j + 1).head >= x + 3 && DueCalls(s, ps, x, k, j) < 5
  {
    LostLives(s, ps, x, k, j);
  }

  /** It is requested by the first call that asks with the head three above it, and by none before. */
  lemma FirstRequest(s: State, ps: seq<Packet>, x: u32, k: nat, j: nat)
    requires CleanRun(s, ps) && k <= j < |ps| && After(s, ps, k).head < x < ps[k].number
    requires forall i :: k < i <= j ==> ps[i].number != x
    requires forall i :: k <= i < j ==> !DueAt(s, ps, x, i)
    ensures forall i :: k <= i < j ==> !Asks(After(s, ps, i), ps[i], x)
    ensures Asks(After(s, ps, j), ps[j], x) <==> ps[j].asks && After(s, ps, j + 1).head >= x + 3
  {
    NoDueCalls(s, ps, x, k, j);
    LostIsRequestedIff(s, ps, x, k, j);
    forall i | k <= i < j ensures !Asks(After(s, ps, i), ps[i], x) {
      LostIsRequestedIff(s, ps, x, k, i);
      assert !DueAt(s, ps, x, i);
    }
  }

  lemma {:induction false} NoDueCalls(s: State, ps: seq<Packet>, x: u32, k: nat, n: nat)
    requires k <= n <= |ps| && forall i :: k <= i < n ==> !DueAt(s, ps, x, i)
    ensures DueCalls(s, ps, x, k, n) == 0
  {
    if k < n {
      NoDueCalls(s, ps, x, k, n - 1);
    }
  }
}
