/**
 When the list of NACK pairs that the queue builds is as short as it can be. Its reach test wraps
 at 2^16, and a pair near the end of the number space reaches around to the first numbers.
 */
module NackMinimal {
  import opened Words
  import opened NackPairs

  /** The highest packet ID whose reach does not wrap. */
  const REACH_LIMIT := 65519

  /** A list of pairs that asks for all the numbers. */
  ghost predicate Covers(ps: seq<Pair>, sns: seq<u16>) {
    (forall i :: 0 <= i < |ps| ==> WellFormed(ps[i])) && forall x: u16 :: x in sns ==> Requested(ps, x)
  }

  ghost predicate Shortest(ps: seq<Pair>, sns: seq<u16>) {
    forall other :: Covers(other, sns) ==> |ps| <= |other|
  }

  lemma SplitAscends(sns: seq<u16>)
    requires Ascending(sns) && sns != []
    ensures var n := |sns| - 1;
            Ascending(sns[..n]) && sns[n] > 0 && (n > 0 ==> sns[..n][n - 1] <= sns[n])
  {}

  // ---------------------------------------------------------------- the numbers that begin pairs

  /** The numbers that begin a pair in the code, in order. */
  function Heads(sns: seq<u16>): seq<u16> {
    if sns == [] then []
    else
      var n := |sns| - 1;
      Heads(sns[..n]) + if Begins(PackAll(sns[..n]), sns[n]) then [sns[n]] else []
  }

  /** The numbers that begin a pair when the reach of a pair does not wrap. */
  function Greedy(sns: seq<u16>): seq<u16> {
    if sns == [] then []
    else
      var n := |sns| - 1;
      NextHeads(Greedy(sns[..n]), sns[n])
  }

  lemma {:induction false} HeadsAreClosed(sns: seq<u16>)
    requires Ascending(sns)
    ensures |Heads(sns)| == |PairsFor(sns)|
    ensures sns != [] ==> Heads(sns) != [] && Heads(sns)[|Heads(sns)| - 1] == PackAll(sns).np.packetID > 0
    ensures sns == [] ==> PackAll(sns).np.packetID == 0
  {
    if sns != [] {
      HeadsAreClosed(sns[..|sns| - 1]);
    }
  }

  ghost predicate AllIn(xs: seq<u16>, sns: seq<u16>) {
    forall i :: 0 <= i < |xs| ==> xs[i] in sns
  }

  ghost predicate Apart(hs: seq<u16>) {
    forall i, j :: 0 <= i < j < |hs| ==> hs[j] as int - hs[i] as int > 16
  }

  /** The number is at most 16 above one of the heads. */
  ghost predicate InReachOf(hs: seq<u16>, x: u16) {
    exists k :: 0 <= k < |hs| && hs[k] <= x <= hs[k] as int + 16
  }

  ghost predicate Reached(hs: seq<u16>, sns: seq<u16>) {
    forall i :: 0 <= i < |sns| ==> InReachOf(hs, sns[i])
  }

  lemma ReachGrows(hs: seq<u16>, h: u16, x: u16)
    requires InReachOf(hs, x)
    ensures InReachOf(hs + [h], x)
  {
    var k :| 0 <= k < |hs| && hs[k] <= x <= hs[k] as int + 16;
    assert (hs + [h])[k] == hs[k];
  }

  /** The heads after one more number. */
  function NextHeads(hs: seq<u16>, sn: u16): seq<u16> {
    if hs == [] || sn > hs[|hs| - 1] as int + 16 then hs + [sn] else hs
  }

  /** None is above the last one, and that is not above a bound. */
  ghost predicate UpTo(hs: seq<u16>, bound: int) {
    forall i :: 0 <= i < |hs| ==> hs[i] <= hs[|hs| - 1] <= bound
  }

  /** What the greedy heads of a list are like. */
  ghost predicate HeadsFor(hs: seq<u16>, sns: seq<u16>) {
    && Apart(hs) && AllIn(hs, sns) && Reached(hs, sns) && (hs == [] <==> sns == [])
    && UpTo(hs, if sns == [] then 0 else sns[|sns| - 1])
  }

  lemma GreedyHeads(sns: seq<u16>)
    requires Ascending(sns)
    ensures HeadsFor(Greedy(sns), sns)
  {
    GreedyApart(sns);
    GreedyIn(sns);
    GreedyReach(sns);
  }

  lemma {:induction false} GreedyApart(sns: seq<u16>)
    requires Ascending(sns)
    ensures Apart(Greedy(sns)) && UpTo(Greedy(sns), if sns == [] then 0 else sns[|sns| - 1])
            && (Greedy(sns) == [] <==> sns == [])
  {
    if sns != [] {
      var n := |sns| - 1;
      SplitAscends(sns);
      GreedyApart(sns[..n]);
      NextApart(Greedy(sns[..n]), if n == 0 then 0 else sns[n - 1], sns[n]);
    }
  }

  lemma {:induction false} GreedyIn(sns: seq<u16>)
    ensures AllIn(Greedy(sns), sns)
  {
    if sns != [] {
      var n := |sns| - 1;
      GreedyIn(sns[..n]);
      NextIn(Greedy(sns[..n]), sns[..n], sns[n]);
      assert sns == sns[..n] + [sns[n]];
    }
  }

  lemma {:induction false} GreedyReach(sns: seq<u16>)
    requires Ascending(sns)
    ensures Reached(Greedy(sns), sns)
  {
    if sns != [] {
      var n := |sns| - 1;
      SplitAscends(sns);
      GreedyReach(sns[..n]);
      GreedyApart(sns[..n]);
      NextReached(Greedy(sns[..n]), sns[..n], sns[n]);
      assert sns == sns[..n] + [sns[n]];
    }
  }

  lemma NextApart(hs: seq<u16>, bound: int, sn: u16)
    requires Apart(hs) && UpTo(hs, bound) && bound <= sn
    ensures Apart(NextHeads(hs, sn)) && UpTo(NextHeads(hs, sn), sn)
  {
    if hs != [] && sn > hs[|hs| - 1] as int + 16 {
      StepApart(hs, sn);
    }
  }

  lemma StepApart(hs: seq<u16>, sn: u16)
    requires Apart(hs) && forall i :: 0 <= i < |hs| ==> sn as int - hs[i] as int > 16
    ensures Apart(hs + [sn])
  {}

  lemma NextIn(hs: seq<u16>, init: seq<u16>, sn: u16)
    requires AllIn(hs, init)
    ensures AllIn(NextHeads(hs, sn), init + [sn])
  {
    assert (init + [sn])[|init|] == sn;
  }

  lemma NextReached(hs: seq<u16>, init: seq<u16>, sn: u16)
    requires Reached(hs, init) && UpTo(hs, sn)
    ensures Reached(NextHeads(hs, sn), init + [sn])
  {
    var r, all := NextHeads(hs, sn), init + [sn];
    forall i | 0 <= i < |all| ensures InReachOf(r, all[i]) {
      if i < |init| {
        assert InReachOf(hs, init[i]);
        ReachGrows(hs, sn, init[i]);
      } else {
        LastReaches(r, sn);
      }
    }
  }

  lemma LastReaches(hs: seq<u16>, x: u16)
    requires hs != [] && hs[|hs| - 1] <= x <= hs[|hs| - 1] as int + 16
    ensures InReachOf(hs, x)
  {}

  /** While no head is above the limit, the code's heads are these. */
  lemma {:induction false} HeadsAreGreedy(sns: seq<u16>)
    requires Ascending(sns) && AllLow(Heads(sns))
    ensures Heads(sns) == Greedy(sns)
  {
    if sns != [] {
      var n := |sns| - 1;
      SplitAscends(sns);
      var tail := if Begins(PackAll(sns[..n]), sns[n]) then [sns[n]] else [];
      assert Heads(sns) == Heads(sns[..n]) + tail;
      LowPrefix(Heads(sns[..n]), tail);
      HeadsAreGreedy(sns[..n]);
      HeadsAreClosed(sns[..n]);
      if n > 0 {
        LowReach(PackAll(sns[..n]).np.packetID);
      }
    }
  }

  lemma LowPrefix(hs: seq<u16>, tail: seq<u16>)
    requires AllLow(hs + tail)
    ensures AllLow(hs)
  {
    assert forall i :: 0 <= i < |hs| ==> hs[i] == (hs + tail)[i];
  }

  lemma LowReach(id: u16)
    requires id <= REACH_LIMIT
    ensures Add16(id, 16) == id + 16
  {}

  // ---------------------------------------------------------------- covers

  /** Numbers that one pair cannot have at both ends: no two are so far apart that it could reach around. */
  ghost predicate Narrow(sns: seq<u16>) {
    forall i, j :: 0 <= i < |sns| && 0 <= j < |sns| ==> sns[j] as int - sns[i] as int <= REACH_LIMIT
  }

  lemma OneHeadPerPair(p: Pair, a: u16, b: u16)
    requires WellFormed(p) && 16 < b as int - a as int <= REACH_LIMIT
    ensures !(Denotes(p, a) && Denotes(p, b))
  {}

  /** Heads that are apart need different pairs, so there are at least as many pairs as heads. */
  lemma {:induction false} Pigeonhole(hs: seq<u16>, ps: seq<Pair>)
    requires Apart(hs) && Narrow(hs) && Covers(ps, hs)
    ensures |hs| <= |ps|
    decreases |hs|
  {
    if hs != [] {
      var n := |hs| - 1;
      assert hs[n] in hs;
      var k :| 0 <= k < |ps| && Denotes(ps[k], hs[n]);
      var rest := ps[..k] + ps[k + 1..];
      forall x: u16 | x in hs[..n] ensures Requested(rest, x) {
        var i :| 0 <= i < n && hs[i] == x;
        OneHeadPerPair(ps[k], hs[i], hs[n]);
        assert x in hs;
        RequestedByRest(ps, k, rest, x);
      }
      Pigeonhole(hs[..n], rest);
    }
  }

  lemma RequestedByRest(ps: seq<Pair>, k: nat, rest: seq<Pair>, x: u16)
    requires (forall i :: 0 <= i < |ps| ==> WellFormed(ps[i])) && k < |ps| && Requested(ps, x) && !Denotes(ps[k], x)
    requires rest == ps[..k] + ps[k + 1..]
    ensures (forall i :: 0 <= i < |rest| ==> WellFormed(rest[i])) && Requested(rest, x)
  {
    var m :| 0 <= m < |ps| && Denotes(ps[m], x);
    assert rest[if m < k then m else m - 1] == ps[m];
  }

  lemma CoversSome(ps: seq<Pair>, hs: seq<u16>, sns: seq<u16>)
    requires Covers(ps, sns) && AllIn(hs, sns)
    ensures Covers(ps, hs)
  {
    forall x: u16 | x in hs ensures Requested(ps, x) {
      var i :| 0 <= i < |hs| && hs[i] == x;
    }
  }

  lemma SomeAreNarrow(hs: seq<u16>, sns: seq<u16>)
    requires Narrow(sns) && AllIn(hs, sns)
    ensures Narrow(hs)
  {
    forall i, j | 0 <= i < |hs| && 0 <= j < |hs| ensures hs[j] as int - hs[i] as int <= REACH_LIMIT {
      var a :| 0 <= a < |sns| && sns[a] == hs[i];
      var b :| 0 <= b < |sns| && sns[b] == hs[j];
    }
  }

  lemma EndsAreNarrow(sns: seq<u16>)
    requires Ascending(sns) && (sns != [] ==> sns[|sns| - 1] as int - sns[0] as int <= REACH_LIMIT)
    ensures Narrow(sns)
  {
    forall i, j | 0 <= i < |sns| && 0 <= j < |sns| ensures sns[j] as int - sns[i] as int <= REACH_LIMIT {
      assert sns[0] <= sns[i] && sns[j] <= sns[|sns| - 1];
    }
  }

  /** A cover of narrow numbers has at least as many pairs as there are greedy heads. */
  lemma GreedyIsLeast(sns: seq<u16>, ps: seq<Pair>)
    requires Ascending(sns) && Narrow(sns) && Covers(ps, sns)
    ensures |Greedy(sns)| <= |ps|
  {
    GreedyHeads(sns);
    SomeAreNarrow(Greedy(sns), sns);
    CoversSome(ps, Greedy(sns), sns);
    Pigeonhole(Greedy(sns), ps);
  }

  /** A pair that asks for everything in its reach. */
  function Full(id: u16): (p: Pair)
    ensures |p.lost| == 16 && forall b :: 0 <= b < 16 ==> p.lost[b]
  {
    Pair(id, seq(16, _ => true))
  }

  lemma FullReaches(id: u16, d: nat)
    requires d <= 16
    ensures Denotes(Full(id), Add16(id, d))
  {
    if d > 0 {
      assert Full(id).lost[d - 1] && Add16(id, d) == Add16(id, d - 1 + 1);
    }
  }

  function FullPairs(hs: seq<u16>): (ps: seq<Pair>)
    ensures |ps| == |hs| && forall i :: 0 <= i < |ps| ==> ps[i] == Full(hs[i])
  {
    if hs == [] then [] else FullPairs(hs[..|hs| - 1]) + [Full(hs[|hs| - 1])]
  }

  lemma FullPairsCover(hs: seq<u16>, sns: seq<u16>)
    requires Reached(hs, sns)
    ensures Covers(FullPairs(hs), sns)
  {
    forall x: u16 | x in sns ensures Requested(FullPairs(hs), x) {
      var i :| 0 <= i < |sns| && sns[i] == x;
      assert InReachOf(hs, sns[i]);
      var k :| 0 <= k < |hs| && hs[k] <= sns[i] <= hs[k] as int + 16;
      FullReaches(hs[k], x as int - hs[k] as int);
    }
  }

  // ---------------------------------------------------------------- no head above the limit

  /** Without a head above the limit, no list of pairs is shorter than the one the queue builds. */
  lemma PairsMinimal(sns: seq<u16>)
    requires Ascending(sns) && AllLow(Heads(sns))
    ensures Shortest(PairsFor(sns), sns)
  {
    HeadsAreClosed(sns);
    HeadsAreGreedy(sns);
    GreedyHeads(sns);
    PositiveHeads(Heads(sns), sns);
    forall other | Covers(other, sns) ensures |PairsFor(sns)| <= |other| {
      CoversSome(other, Heads(sns), sns);
      Pigeonhole(Heads(sns), other);
    }
  }

  lemma PositiveHeads(hs: seq<u16>, sns: seq<u16>)
    requires Ascending(sns) && AllIn(hs, sns) && AllLow(hs)
    ensures Narrow(hs)
  {}

  // ---------------------------------------------------------------- a number after a head above the limit

  /** The current pair began above the limit, so that every further number begins another. */
  ghost predicate High(sns: seq<u16>) {
    PackAll(sns).np.packetID > REACH_LIMIT
  }

  lemma {:induction false} StillHigh(sns: seq<u16>, n: nat)
    requires Ascending(sns) && n <= |sns| && High(sns[..n])
    ensures High(sns) && (n < |sns| ==> High(sns[..|sns| - 1]))
  {
    if n < |sns| {
      var m := |sns| - 1;
      SplitAscends(sns);
      assert sns[..m][..n] == sns[..n] && sns == sns[..m] + [sns[m]];
      StillHigh(sns[..m], n);
      StaysHigh(sns[..m], sns[m]);
    } else {
      assert sns[..n] == sns;
    }
  }

  lemma OneMoreHead(low: seq<u16>, sn: u16)
    requires Ascending(low) && High(low) && low[|low| - 1] <= sn
    ensures |Heads(low + [sn])| == |Heads(low)| + 1
  {
    StaysHigh(low, sn);
    assert (low + [sn])[..|low|] == low;
  }

  lemma {:induction false} HeadsGrow(sns: seq<u16>, n: nat)
    requires Ascending(sns) && n < |sns| && High(sns[..n])
    ensures |Heads(sns[..n])| < |Heads(sns)|
  {
    var m := |sns| - 1;
    var low, last := sns[..m], sns[m];
    SplitAscends(sns);
    StillHigh(sns, n);
    assert sns == low + [last];
    OneMoreHead(low, last);
    if n < m {
      assert low[..n] == sns[..n];
      HeadsGrow(low, n);
    }
  }

  lemma PrefixAscends(low: seq<u16>, sn: u16)
    requires Ascending(low + [sn])
    ensures Ascending(low) && sn > 0 && (low != [] ==> low[|low| - 1] <= sn)
  {
    assert forall i :: 0 <= i < |low| ==> low[i] == (low + [sn])[i];
    assert (low + [sn])[|low|] == sn;
  }

  /** One number: its pair begins above the limit, with all heads before it below. */
  lemma HighBegins(low: seq<u16>, sn: u16)
    requires Ascending(low + [sn]) && High(low + [sn]) && !High(low)
    ensures Heads(low + [sn]) == Heads(low) + [sn] == Greedy(low + [sn])
    ensures Begins(PackAll(low), sn) && sn > REACH_LIMIT
  {
    assert (low + [sn])[..|low|] == low;
    PrefixAscends(low, sn);
    LowHeads(low);
    HeadsAreClosed(low);
    HeadsAreGreedy(low);
    LowReach(PackAll(low).np.packetID);
  }

  /** The first number whose pair begins above the limit ends the greedy heads: its pair reaches all that follow. */
  lemma FirstHighReaches(sns: seq<u16>, n: nat)
    requires Ascending(sns) && n < |sns| && High(sns[..n + 1]) && !High(sns[..n])
    ensures Heads(sns[..n + 1]) == Greedy(sns[..n + 1]) && Reached(Greedy(sns[..n + 1]), sns)
    ensures Begins(PackAll(sns[..n]), sns[n]) && sns[n] > REACH_LIMIT
  {
    assert sns[..n + 1] == sns[..n] + [sns[n]];
    HighBegins(sns[..n], sns[n]);
    GreedyHeads(sns[..n + 1]);
    var hs := Greedy(sns[..n + 1]);
    forall i | 0 <= i < |sns| ensures InReachOf(hs, sns[i]) {
      if i <= n {
        assert sns[..n + 1][i] == sns[i];
      } else {
        assert sns[n] <= sns[i];
        LastReaches(hs, sns[i]);
      }
    }
  }

  ghost predicate AllLow(hs: seq<u16>) {
    forall i :: 0 <= i < |hs| ==> hs[i] <= REACH_LIMIT
  }

  lemma {:induction false} LowHeads(sns: seq<u16>)
    requires Ascending(sns) && !High(sns)
    ensures AllLow(Heads(sns))
  {
    if sns != [] {
      var n := |sns| - 1;
      SplitAscends(sns);
      assert sns == sns[..n] + [sns[n]];
      if High(sns[..n]) {
        StaysHigh(sns[..n], sns[n]);
      }
      LowHeads(sns[..n]);
      HeadsAreClosed(sns);
    }
  }

  /** A pair above the limit is followed by another for every number. */
  lemma StaysHigh(low: seq<u16>, sn: u16)
    requires Ascending(low) && High(low) && low[|low| - 1] <= sn
    ensures Begins(PackAll(low), sn) && High(low + [sn])
  {
    CurrentPair(low);
    assert (low + [sn])[..|low|] == low;
  }

  /** Every number that is packed after a head above the limit makes the list longer than it need be. */
  lemma NumberAfterHighHead(sns: seq<u16>, n: nat)
    requires Ascending(sns) && n + 1 < |sns| && High(sns[..n + 1]) && !High(sns[..n])
    ensures !Shortest(PairsFor(sns), sns)
  {
    FirstHighReaches(sns, n);
    FullPairsCover(Greedy(sns[..n + 1]), sns);
    HeadsGrow(sns, n + 1);
    HeadsAreClosed(sns);
  }

  // ---------------------------------------------------------------- the last number begins a pair above the limit

  /** The numbers between p and those that a pair with packet ID p reaches around to. */
  function Middle(sns: seq<u16>, p: u16): seq<u16> {
    if sns == [] then []
    else
      var n := |sns| - 1;
      Middle(sns[..n], p) + if p as int - 65520 < sns[n] < p then [sns[n]] else []
  }

  lemma {:induction false} MiddleMembers(sns: seq<u16>, p: u16, x: u16)
    ensures x in Middle(sns, p) <==> x in sns && p as int - 65520 < x < p
  {
    if sns != [] {
      var n := |sns| - 1;
      MiddleMembers(sns[..n], p, x);
      assert sns == sns[..n] + [sns[n]];
    }
  }

  lemma {:induction false} MiddleAscends(sns: seq<u16>, p: u16)
    requires Ascending(sns)
    ensures Ascending(Middle(sns, p)) && forall i :: 0 <= i < |Middle(sns, p)| ==>
            sns != [] && Middle(sns, p)[i] <= sns[|sns| - 1]
  {
    if sns != [] {
      var n := |sns| - 1;
      MiddleAscends(sns[..n], p);
      if n > 0 {
        assert sns[n - 1] <= sns[n];
      }
      AscendsNext(Middle(sns[..n], p), sns[n]);
    }
  }

  lemma AscendsNext(xs: seq<u16>, sn: u16)
    requires Ascending(xs) && sn > 0 && forall i :: 0 <= i < |xs| ==> xs[i] <= sn
    ensures Ascending(xs + [sn])
  {}

  lemma MiddleNumbers(sns: seq<u16>, p: u16)
    requires Ascending(sns)
    ensures forall x: u16 :: x in Middle(sns, p) <==> x in sns && p as int - 65520 < x < p
    ensures Ascending(Middle(sns, p)) && Narrow(Middle(sns, p))
  {
    forall x: u16 ensures x in Middle(sns, p) <==> x in sns && p as int - 65520 < x < p {
      MiddleMembers(sns, p, x);
    }
    MiddleAscends(sns, p);
    BetweenIsNarrow(Middle(sns, p), p);
  }

  lemma BetweenIsNarrow(xs: seq<u16>, p: u16)
    requires forall x: u16 :: x in xs ==> p as int - 65520 < x < p
    ensures Narrow(xs)
  {
    forall i, j | 0 <= i < |xs| && 0 <= j < |xs| ensures xs[j] as int - xs[i] as int <= REACH_LIMIT {
      assert xs[i] in xs && xs[j] in xs;
    }
  }

  /** A pair that takes in the last number can take the first ones too, and leave few enough in between. */
  ghost predicate WrapSaves(sns: seq<u16>, p: u16) {
    sns != [] && p in sns && sns[|sns| - 1] as int - 16 <= p && |Greedy(Middle(sns, p))| + 1 < |Heads(sns)|
  }

  /** If a wrapping pair saves one, this is the shorter list. */
  lemma WrapCovers(sns: seq<u16>, p: u16)
    requires Ascending(sns) && WrapSaves(sns, p)
    ensures !Shortest(PairsFor(sns), sns)
  {
    var middle := Middle(sns, p);
    MiddleAscends(sns, p);
    GreedyReach(middle);
    FullPairsCover(Greedy(middle), middle);
    HeadsAreClosed(sns);
    AddWrap(FullPairs(Greedy(middle)), sns, p);
  }

  lemma AddWrap(inner: seq<Pair>, sns: seq<u16>, p: u16)
    requires Ascending(sns) && sns != [] && sns[|sns| - 1] as int - 16 <= p && Covers(inner, Middle(sns, p))
    ensures Covers(inner + [Full(p)], sns)
  {
    MiddleNumbers(sns, p);
    forall x: u16 | x in sns ensures Requested(inner + [Full(p)], x) {
      RequestedAppend(inner, Full(p), x);
      if x !in Middle(sns, p) {
        InReachOfWrap(sns, p, x);
      }
    }
  }

  lemma InReachOfWrap(sns: seq<u16>, p: u16, x: u16)
    requires Ascending(sns) && sns != [] && sns[|sns| - 1] as int - 16 <= p && x in sns && !(p as int - 65520 < x < p)
    ensures Denotes(Full(p), x)
  {
    var i :| 0 <= i < |sns| && sns[i] == x;
    if x >= p {
      FullReaches(p, x as int - p as int);
    } else {
      FullReaches(p, 65536 + x as int - p as int);
      assert Add16(p, 65536 + x as int - p as int) == x;
    }
  }

  /** The first number at or above a packet ID. */
  lemma FirstFrom(sns: seq<u16>, id: u16) returns (i: nat)
    requires Ascending(sns) && sns != [] && sns[|sns| - 1] >= id
    ensures i < |sns| && sns[i] >= id && forall k :: 0 <= k < i ==> sns[k] < id
  {
    i := 0;
    while sns[i] < id
      invariant i < |sns| && forall k :: 0 <= k < i ==> sns[k] < id
      decreases |sns| - i
    {
      i := i + 1;
    }
  }

  /**
   Any cover has one pair for the last number, and with the first number of its own that this pair
   reaches, the rest.
   */
  lemma CoverSplits(sns: seq<u16>, ps: seq<Pair>) returns (p: u16)
    requires Ascending(sns) && sns != [] && sns[|sns| - 1] > REACH_LIMIT && Covers(ps, sns)
    ensures p in sns && sns[|sns| - 1] as int - 16 <= p && |Greedy(Middle(sns, p))| + 1 <= |ps|
  {
    var h := sns[|sns| - 1];
    assert h in sns;
    var k :| 0 <= k < |ps| && Denotes(ps[k], h);
    var id := ps[k].packetID;
    PairBelow(ps[k], h);
    var i := FirstFrom(sns, id);
    p := sns[i];
    MiddleNumbers(sns, p);
    var rest := ps[..k] + ps[k + 1..];
    forall x: u16 | x in Middle(sns, p) ensures Requested(rest, x) {
      var m :| 0 <= m < |sns| && sns[m] == x;
      OutOfReach(ps[k], p, x);
      RequestedByRest(ps, k, rest, x);
    }
    GreedyIsLeast(Middle(sns, p), rest);
  }

  lemma PairBelow(p: Pair, h: u16)
    requires WellFormed(p) && Denotes(p, h) && h > REACH_LIMIT
    ensures h as int - 16 <= p.packetID <= h
  {}

  lemma OutOfReach(pair: Pair, p: u16, x: u16)
    requires WellFormed(pair) && pair.packetID <= p && x < pair.packetID && p as int - 65520 < x
    ensures !Denotes(pair, x)
  {}

  /**
   With one last head above the limit, the list is as short as it can be exactly when no pair
   that takes in the last number, and so reaches around to the first ones, saves another.
   */
  lemma LastHeadHighIff(sns: seq<u16>)
    requires Ascending(sns) && sns != [] && High(sns) && !High(sns[..|sns| - 1])
    ensures Shortest(PairsFor(sns), sns) <==> !exists p: u16 :: WrapSaves(sns, p)
  {
    assert sns[..|sns|] == sns;
    FirstHighReaches(sns, |sns| - 1);
    HeadsAreClosed(sns);
    if p: u16 :| WrapSaves(sns, p) {
      WrapCovers(sns, p);
    } else {
      forall other | Covers(other, sns) ensures |PairsFor(sns)| <= |other| {
        var p := CoverSplits(sns, other);
        assert !WrapSaves(sns, p);
      }
    }
  }

  lemma {:induction false} FirstHigh(sns: seq<u16>) returns (n: nat)
    requires Ascending(sns) && High(sns)
    ensures n < |sns| && High(sns[..n + 1]) && !High(sns[..n])
  {
    n := |sns| - 1;
    assert sns[..n + 1] == sns;
    if High(sns[..n]) {
      n := FirstHigh(sns[..n]);
      assert sns[..|sns| - 1][..n + 1] == sns[..n + 1] && sns[..|sns| - 1][..n] == sns[..n];
    }
  }

  /**
   For every ascending list: the pairs are a shortest list exactly when no number was packed
   after a head above 65519, and no pair that takes in such a last head saves another by
   reaching around.
   */
  lemma MinimalIff(sns: seq<u16>)
    requires Ascending(sns)
    ensures Shortest(PairsFor(sns), sns) <==>
            !High(sns) || (!High(sns[..|sns| - 1]) && !exists p: u16 :: WrapSaves(sns, p))
  {
    if !High(sns) {
      LowHeads(sns);
      PairsMinimal(sns);
    } else {
      var n := FirstHigh(sns);
      if n + 1 < |sns| {
        NumberAfterHighHead(sns, n);
        SplitAscends(sns);
        assert sns[..|sns| - 1][..n + 1] == sns[..n + 1];
        StillHigh(sns[..|sns| - 1], n + 1);
      } else {
        LastHeadHighIff(sns);
      }
    }
  }

  /** If the first number is beyond the reach of the last head, nothing can be saved. */
  lemma FirstBeyondReach(sns: seq<u16>)
    requires Ascending(sns) && sns != [] && High(sns) && !High(sns[..|sns| - 1])
    requires sns[0] as int > sns[|sns| - 1] as int - 65520
    ensures Shortest(PairsFor(sns), sns)
  {
    assert sns[..|sns|] == sns;
    FirstHighReaches(sns, |sns| - 1);
    HeadsAreClosed(sns);
    EndsAreNarrow(sns);
    forall other | Covers(other, sns) ensures |PairsFor(sns)| <= |other| {
      GreedyIsLeast(sns, other);
    }
  }

  /** 65530 and 65531 fit one pair but get two; 5 and 65530 fit one pair around the end but get two. */
  lemma NotMinimalAtTheEnd()
    ensures |PairsFor([65530, 65531])| == 2 == |PairsFor([5, 65530])|
    ensures Covers([Full(65530)], [65530, 65531]) && Covers([Full(65530)], [5, 65530])
  {
    assert [65530, 65531][..1] == [65530] && [65530][..0] == [] && [5, 65530][..1] == [5] && [5][..0] == [];
    assert PackAll([65530]) == Packing(Pair(65530, Zeros(16)), []) && PackAll([5]) == Packing(Pair(5, Zeros(16)), []);
    FullReaches(65530, 0);
    FullReaches(65530, 1);
    FullReaches(65530, 11);
    assert [Full(65530)][0] == Full(65530);
  }
}
