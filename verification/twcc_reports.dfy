/**
 Which packets go into a transport-wide congestion control report: the pending arrivals are
 sorted, the gaps between them filled with "not received" entries, and what does not fit is
 kept for the next report.
 */
module TwccReports {
  import opened Words
  import opened TwccDeltas

  /** The loop's tccPkts, lastExtSN and consumedExtInfo. */
  datatype Collected = Collected(pkts: seq<Arrival>, last: u32, consumed: nat)

  /** "Not received" entries for the numbers from `lo` up to, but not including, `hi`. */
  function Gap(lo: u32, hi: u32): seq<Arrival>
    decreases hi
  {
    if lo >= hi then [] else Gap(lo, hi - 1) + [Arrival(hi - 1, 0)]
  }

  /** The loop body for an arrival that is not skipped. */
  function Take(c: Collected, a: Arrival): Collected {
    var gap := if c.last != 0 then Gap(Add32(c.last, 1), a.extTSN) else [];
    Collected(c.pkts + gap + [a], a.extTSN, c.consumed + 1)
  }

  /** The collection loop over the sorted arrivals, until the report has `limit` packets. */
  function Collect(infos: seq<Arrival>, c: Collected, limit: nat): Collected {
    if infos == [] then c
    else if infos[0].extTSN < c.last then Collect(infos[1..], c, limit)
    else
      var d := Take(c, infos[0]);
      if |d.pkts| >= limit then d else Collect(infos[1..], d, limit)
  }

  /** int(float64(n) * 1.2), exact for any number of pending arrivals that can occur. */
  function Limit(n: nat): nat {
    n * 6 / 5
  }

  /** The loop's result, started with the last number that was ever reported. */
  function Collection(sorted: seq<Arrival>, last: u32): Collected {
    Collect(sorted, Collected([], last, 0), Limit(|sorted|))
  }

  /** What stays in extInfo: the loop drops as many arrivals from the front as it took. */
  function Leftover(sorted: seq<Arrival>, consumed: nat): seq<Arrival> {
    if consumed < |sorted| then sorted[consumed..] else []
  }

  // ---------------------------------------------------------------- sorting

  ghost predicate Sorted(s: seq<Arrival>) {
    forall i, j :: 0 <= i < j < |s| ==> s[i].extTSN <= s[j].extTSN
  }

  ghost predicate Distinct(s: seq<Arrival>) {
    forall i, j :: 0 <= i < j < |s| ==> s[i].extTSN != s[j].extTSN
  }

  ghost predicate Increasing(s: seq<Arrival>) {
    forall i, j :: 0 <= i < j < |s| ==> s[i].extTSN < s[j].extTSN
  }

  /** Where an arrival belongs among sorted ones. */
  ghost predicate Fits(s: seq<Arrival>, k: nat, a: Arrival) {
    k <= |s|
    && (forall i :: 0 <= i < k ==> s[i].extTSN <= a.extTSN)
    && (forall i :: k <= i < |s| ==> a.extTSN < s[i].extTSN)
  }

  lemma InsertedSorted(s: seq<Arrival>, k: nat, a: Arrival)
    requires Sorted(s) && Fits(s, k, a)
    ensures Sorted(s[..k] + [a] + s[k..])
  {}

  lemma InsertedIncreasing(s: seq<Arrival>, k: nat, a: Arrival)
    requires Increasing(s) && Fits(s, k, a) && NotIn(s, a)
    ensures Increasing(s[..k] + [a] + s[k..])
  {}

  lemma InsertedElements(s: seq<Arrival>, k: nat, a: Arrival)
    requires k <= |s|
    ensures multiset(s[..k] + [a] + s[k..]) == multiset(s) + multiset{a}
  {
    assert s == s[..k] + s[k..];
  }

  /** The list with an arrival behind everything that its number is not below. */
  function InsertInto(s: seq<Arrival>, a: Arrival): seq<Arrival> {
    if s == [] || s[|s| - 1].extTSN <= a.extTSN then s + [a] else InsertInto(s[..|s| - 1], a) + [s[|s| - 1]]
  }

  /** The arrivals in the order of their numbers. */
  function Sorting(s: seq<Arrival>): seq<Arrival> {
    if s == [] then [] else InsertInto(Sorting(s[..|s| - 1]), s[|s| - 1])
  }

  lemma {:induction false} InsertPlace(s: seq<Arrival>, a: Arrival) returns (k: nat)
    requires Sorted(s)
    ensures Fits(s, k, a) && InsertInto(s, a) == s[..k] + [a] + s[k..]
  {
    if s == [] || s[|s| - 1].extTSN <= a.extTSN {
      k := |s|;
    } else {
      k := InsertPlace(s[..|s| - 1], a);
      assert s[..|s| - 1][..k] == s[..k] && s[k..] == s[..|s| - 1][k..] + [s[|s| - 1]];
    }
  }

  ghost predicate NotIn(s: seq<Arrival>, a: Arrival) {
    forall i :: 0 <= i < |s| ==> s[i].extTSN != a.extTSN
  }

  /** The same elements in the order of their numbers. */
  ghost predicate SortsTo(s: seq<Arrival>, r: seq<Arrival>) {
    Sorted(r) && multiset(r) == multiset(s) && (Distinct(s) ==> Increasing(r))
  }

  /** Sorting loses nothing, and puts different numbers in increasing order. */
  lemma {:induction false} SortingSorts(s: seq<Arrival>)
    ensures SortsTo(s, Sorting(s))
  {
    if s != [] {
      var init, a := s[..|s| - 1], s[|s| - 1];
      SortingSorts(init);
      SortingNext(Sorting(init), init, a);
      assert s == init + [a];
    }
  }

  lemma SortingNext(sorted: seq<Arrival>, init: seq<Arrival>, a: Arrival)
    requires SortsTo(init, sorted)
    ensures SortsTo(init + [a], InsertInto(sorted, a))
  {
    var k := InsertPlace(sorted, a);
    InsertedSorted(sorted, k, a);
    InsertedElements(sorted, k, a);
    if Distinct(init + [a]) {
      PrefixDistinct(init, a);
      NotAmongSame(sorted, init, a);
      InsertedIncreasing(sorted, k, a);
    }
  }

  lemma PrefixDistinct(init: seq<Arrival>, a: Arrival)
    requires Distinct(init + [a])
    ensures Distinct(init) && NotIn(init, a)
  {
    assert forall i :: 0 <= i < |init| ==> init[i] == (init + [a])[i];
    assert (init + [a])[|init|] == a;
  }

  lemma NotAmongSame(s: seq<Arrival>, t: seq<Arrival>, a: Arrival)
    requires multiset(s) == multiset(t) && NotIn(t, a)
    ensures NotIn(s, a)
  {
    forall i | 0 <= i < |s| ensures s[i].extTSN != a.extTSN {
      assert s[i] in multiset(t);
    }
  }

  method Insert(s: seq<Arrival>, a: Arrival) returns (r: seq<Arrival>)
    ensures r == InsertInto(s, a)
  {
    var k := |s|;
    assert s[..k] == s;
    while k > 0 && s[k - 1].extTSN > a.extTSN
      invariant 0 <= k <= |s| && InsertInto(s, a) == InsertInto(s[..k], a) + s[k..]
    {
      k := k - 1;
      assert s[..k + 1][..k] == s[..k] && s[k..] == [s[k]] + s[k + 1..];
    }
    r := s[..k] + [a] + s[k..];
  }

  /** sort.Slice by sequence number, which leaves equal numbers in some order: here, in that of their arrival. */
  method SortByNumber(s: seq<Arrival>) returns (r: seq<Arrival>)
    ensures r == Sorting(s)
  {
    r := [];
    for i := 0 to |s|
      invariant r == Sorting(s[..i])
    {
      assert s[..i + 1][..i] == s[..i];
      r := Insert(r, s[i]);
    }
    assert s[..|s|] == s;
  }

  // ---------------------------------------------------------------- one report

  ghost predicate Consecutive(s: seq<Arrival>) {
    forall i :: 0 < i < |s| ==> s[i].extTSN == s[i - 1].extTSN + 1
  }

  /** A list of reported packets starts right after the last number reported, if there was one. */
  ghost predicate Follows(last: u32, s: seq<Arrival>) {
    s != [] && last != 0 ==> s[0].extTSN == last + 1
  }

  function LastNumber(last: u32, s: seq<Arrival>): u32 {
    if s == [] then last else s[|s| - 1].extTSN
  }

  /** The entries of a report that stand for received packets. */
  function Taken(s: seq<Arrival>): seq<Arrival> {
    if s == [] then []
    else Taken(s[..|s| - 1]) + if s[|s| - 1].timestamp == 0 then [] else [s[|s| - 1]]
  }

  lemma {:induction false} TakenConcat(a: seq<Arrival>, b: seq<Arrival>)
    ensures Taken(a + b) == Taken(a) + Taken(b)
  {
    if b == [] {
      assert a + b == a;
    } else {
      TakenConcat(a, b[..|b| - 1]);
      assert (a + b)[..|a + b| - 1] == a + b[..|b| - 1];
    }
  }

  lemma {:induction false} GapShape(lo: u32, hi: u32)
    requires lo <= hi
    ensures var g := Gap(lo, hi);
            && |g| == hi - lo && Taken(g) == []
            && forall i :: 0 <= i < |g| ==> g[i] == Arrival(lo + i, 0)
    decreases hi
  {
    if lo < hi {
      GapShape(lo, hi - 1);
    }
  }

  ghost predicate AllReceived(s: seq<Arrival>) {
    forall i :: 0 <= i < |s| ==> s[i].timestamp != 0
  }

  ghost predicate AllAbove(last: u32, s: seq<Arrival>) {
    forall i :: 0 <= i < |s| ==> s[i].extTSN > last
  }

  /** `more` continues the numbers after `last` without a hole and shows exactly the arrivals `infos`. */
  ghost predicate Tiles(last: u32, more: seq<Arrival>, infos: seq<Arrival>) {
    && Follows(last, more) && Consecutive(more)
    && Taken(more) == infos
    && (infos == [] ==> more == [])
    && (infos != [] ==> more != [] && more[|more| - 1] == infos[|infos| - 1])
  }

  lemma GapTiles(last: u32, gap: seq<Arrival>, a: Arrival)
    requires a.extTSN > last && a.timestamp != 0
    requires if last == 0 then gap == [] else gap == Gap(last + 1, a.extTSN)
    ensures Tiles(last, gap + [a], [a])
  {
    if last != 0 {
      GapShape(last + 1, a.extTSN);
    }
    assert Taken(gap) == [];
    TakenConcat(gap, [a]);
    TakenOne(a);
  }

  lemma TakenOne(a: Arrival)
    requires a.timestamp != 0
    ensures Taken([a]) == [a]
  {
    assert [a][..0] == [];
  }

  lemma TakeTiles(c: Collected, a: Arrival)
    requires a.extTSN > c.last && a.timestamp != 0
    ensures var d := Take(c, a);
            c.pkts <= d.pkts && Tiles(c.last, d.pkts[|c.pkts|..], [a])
  {
    var gap := if c.last != 0 then Gap(Add32(c.last, 1), a.extTSN) else [];
    GapTiles(c.last, gap, a);
    assert Take(c, a).pkts == c.pkts + (gap + [a]);
  }

  lemma TilesConcat(last: u32, first: seq<Arrival>, a: seq<Arrival>, second: seq<Arrival>, b: seq<Arrival>)
    requires Tiles(last, first, a) && a != [] && Tiles(LastNumber(last, first), second, b)
    requires LastNumber(last, first) > 0
    ensures Tiles(last, first + second, a + b)
  {
    TakenConcat(first, second);
  }

  /** What the loop did between two of its states, for the arrivals it saw. */
  ghost predicate TookPrefix(c: Collected, d: Collected, infos: seq<Arrival>) {
    && c.consumed <= d.consumed <= c.consumed + |infos|
    && (infos != [] ==> d.consumed > c.consumed)
    && c.pkts <= d.pkts
    && d.last == LastNumber(c.last, infos[..d.consumed - c.consumed])
    && Tiles(c.last, d.pkts[|c.pkts|..], infos[..d.consumed - c.consumed])
  }

  lemma LastConcat(last: u32, a: seq<Arrival>, b: seq<Arrival>)
    ensures LastNumber(last, a + b) == LastNumber(LastNumber(last, a), b)
  {}

  lemma LastOfTake(c: Collected, a: Arrival)
    requires c.pkts <= Take(c, a).pkts
    ensures LastNumber(c.last, Take(c, a).pkts[|c.pkts|..]) == Take(c, a).last == a.extTSN
  {}

  lemma SliceConcat(a: seq<Arrival>, b: seq<Arrival>, c: seq<Arrival>)
    requires a <= b <= c
    ensures c[|a|..] == b[|a|..] + c[|b|..]
  {}

  lemma TookOne(c: Collected, a: Arrival)
    requires c.pkts <= Take(c, a).pkts && Tiles(c.last, Take(c, a).pkts[|c.pkts|..], [a])
    ensures TookPrefix(c, Take(c, a), [a]) && Take(c, a).last == a.extTSN
  {
    assert [a][..1] == [a];
  }

  lemma TookOneAndPrefix(c: Collected, m: Collected, d: Collected, infos: seq<Arrival>)
    requires infos != [] && m.consumed == c.consumed + 1 && m.last == infos[0].extTSN > 0 && m.pkts != []
    requires TookPrefix(c, m, [infos[0]]) && TookPrefix(m, d, infos[1..])
    requires LastNumber(c.last, m.pkts[|c.pkts|..]) == m.last
    ensures TookPrefix(c, d, infos)
  {
    var k := d.consumed - m.consumed;
    var one, rest := [infos[0]], infos[1..][..k];
    assert one[..1] == one && infos[..k + 1] == one + rest;
    SliceConcat(c.pkts, m.pkts, d.pkts);
    LastConcat(c.last, one, rest);
    TilesConcat(c.last, m.pkts[|c.pkts|..], one, d.pkts[|m.pkts|..], rest);
  }

  /**
   For sorted arrivals beyond the last reported number, the loop takes a prefix of them, and
   the packets it adds are consecutive, start right after the last report and show that prefix.
   */
  lemma {:induction false} CollectTiles(infos: seq<Arrival>, c: Collected, limit: nat)
    requires Increasing(infos) && AllAbove(c.last, infos) && AllReceived(infos)
    ensures TookPrefix(c, Collect(infos, c, limit), infos)
  {
    if infos == [] {
      assert c.pkts[|c.pkts|..] == [];
    } else {
      var m := Take(c, infos[0]);
      TakeTiles(c, infos[0]);
      if |m.pkts| < limit {
        CollectTiles(infos[1..], m, limit);
        TookOne(c, infos[0]);
        LastOfTake(c, infos[0]);
        TookOneAndPrefix(c, m, Collect(infos[1..], m, limit), infos);
      } else {
        assert infos[..1] == [infos[0]];
      }
    }
  }

  // ---------------------------------------------------------------- all reports of a run

  /** Everything ever reported, in order, what is still pending, and everything ever pushed. */
  datatype Ledger = Ledger(reported: seq<Arrival>, pending: seq<Arrival>, pushed: multiset<Arrival>)

  /**
   The packet lists of all reports together are one consecutive run, the numbers marked
   received in it are pushed ones, and each pushed record is in it or pending, once.
   */
  ghost predicate Tiled(l: Ledger, last: u32) {
    && Consecutive(l.reported)
    && (l.reported == [] <==> last == 0)
    && LastNumber(0, l.reported) == last
    && multiset(Taken(l.reported)) + multiset(l.pending) == l.pushed
    && Distinct(l.pending) && AllAbove(last, l.pending) && AllReceived(l.pending)
  }

  /** The ledger after a report over the pending arrivals in sorted order. */
  function Report(l: Ledger, sorted: seq<Arrival>, last: u32): Ledger {
    var d := Collection(sorted, last);
    Ledger(l.reported + d.pkts, Leftover(sorted, d.consumed), l.pushed)
  }

  /** A new number beyond the last reported one goes to the pending records. */
  lemma PushKeepsTiled(l: Ledger, record: Arrival, last: u32)
    requires Tiled(l, last) && record.extTSN > last && record.timestamp != 0
    requires forall i :: 0 <= i < |l.pending| ==> l.pending[i].extTSN != record.extTSN
    ensures Tiled(Ledger(l.reported, l.pending + [record], l.pushed + multiset{record}), last)
  {}

  lemma ExtendedRun(l: Ledger, last: u32, more: seq<Arrival>, infos: seq<Arrival>)
    requires Tiled(l, last) && Tiles(last, more, infos) && infos != []
    ensures Consecutive(l.reported + more)
    ensures LastNumber(0, l.reported + more) == infos[|infos| - 1].extTSN
    ensures Taken(l.reported + more) == Taken(l.reported) + infos
  {
    TakenConcat(l.reported, more);
  }

  lemma SplitPending(sorted: seq<Arrival>, k: nat, last: u32)
    requires 0 < k <= |sorted| && Increasing(sorted) && AllReceived(sorted)
    ensures Distinct(sorted[k..]) && AllReceived(sorted[k..]) && AllAbove(sorted[k - 1].extTSN, sorted[k..])
    ensures multiset(sorted[..k]) + multiset(sorted[k..]) == multiset(sorted)
    ensures Leftover(sorted, k) == sorted[k..]
  {
    assert sorted == sorted[..k] + sorted[k..];
  }

  /** A report extends the consecutive run and neither loses nor repeats a record. */
  lemma ReportKeepsTiled(l: Ledger, sorted: seq<Arrival>, last: u32)
    requires Tiled(l, last) && l.pending != []
    requires Increasing(sorted) && multiset(sorted) == multiset(l.pending)
    ensures Tiled(Report(l, sorted, last), Collection(sorted, last).last)
    ensures Collection(sorted, last).pkts != []
    ensures Collection(sorted, last).last > last
    ensures |Report(l, sorted, last).pending| < |l.pending|
  {
    SameElements(sorted, l.pending, last);
    var d := Collection(sorted, last);
    CollectionTiles(sorted, last);
    ExtendedRun(l, last, d.pkts, sorted[..d.consumed]);
    SplitPending(sorted, d.consumed, last);
  }

  lemma CollectionTiles(sorted: seq<Arrival>, last: u32)
    requires Increasing(sorted) && AllAbove(last, sorted) && AllReceived(sorted) && sorted != []
    ensures var d := Collection(sorted, last);
            && 0 < d.consumed <= |sorted| && Tiles(last, d.pkts, sorted[..d.consumed])
            && d.last == sorted[d.consumed - 1].extTSN > last && d.pkts != []
  {
    var c := Collected([], last, 0);
    CollectTiles(sorted, c, Limit(|sorted|));
    var d := Collection(sorted, last);
    assert d.pkts[|c.pkts|..] == d.pkts;
  }

  lemma SameElements(a: seq<Arrival>, b: seq<Arrival>, last: u32)
    requires multiset(a) == multiset(b) && AllAbove(last, b) && AllReceived(b)
    ensures AllAbove(last, a) && AllReceived(a)
    ensures |a| == |b|
  {
    assert |multiset(a)| == |multiset(b)|;
    forall i | 0 <= i < |a| ensures a[i].extTSN > last && a[i].timestamp != 0 {
      assert a[i] in multiset(b);
    }
  }

  // ---------------------------------------------------------------- records that come too late

  /**
   The loop takes what is not late, from the first such record on, but drops records from the
   front of the list: with k late records in front, the two ranges differ by k.
   */
  lemma {:induction false} CollectSkipsLate(infos: seq<Arrival>, k: nat, c: Collected, limit: nat)
    requires k <= |infos| && forall i :: 0 <= i < k ==> infos[i].extTSN < c.last
    ensures Collect(infos, c, limit) == Collect(infos[k..], c, limit)
  {
    if k > 0 {
      CollectSkipsLate(infos[1..], k - 1, c, limit);
      assert infos[1..][k - 1..] == infos[k..];
    }
  }

  lemma TakeShows(c: Collected, a: Arrival)
    requires a.timestamp != 0
    ensures Taken(Take(c, a).pkts) == Taken(c.pkts) + [a]
  {
    var gap := if c.last != 0 then Gap(Add32(c.last, 1), a.extTSN) else [];
    if c.last != 0 {
      GapTakesNothing(Add32(c.last, 1), a.extTSN);
    }
    TakenConcat(c.pkts + gap, [a]);
    TakenConcat(c.pkts, gap);
    TakenOne(a);
  }

  lemma {:induction false} GapTakesNothing(lo: u32, hi: u32)
    ensures Taken(Gap(lo, hi)) == []
    decreases hi
  {
    if lo < hi {
      GapTakesNothing(lo, hi - 1);
    }
  }

  ghost predicate Showed(c: Collected, d: Collected, infos: seq<Arrival>) {
    && c.consumed <= d.consumed <= c.consumed + |infos|
    && (infos != [] ==> d.consumed > c.consumed)
    && Taken(d.pkts) == Taken(c.pkts) + infos[..d.consumed - c.consumed]
  }

  lemma TailIsSorted(infos: seq<Arrival>, rest: seq<Arrival>)
    requires infos != [] && rest == infos[1..] && Sorted(infos) && AllReceived(infos)
    ensures Sorted(rest) && AllReceived(rest) && (rest != [] ==> rest[0].extTSN >= infos[0].extTSN)
  {}

  lemma ShowedOneMore(c: Collected, m: Collected, d: Collected, infos: seq<Arrival>)
    requires infos != [] && m.consumed == c.consumed + 1 && Taken(m.pkts) == Taken(c.pkts) + [infos[0]]
    requires Showed(m, d, infos[1..])
    ensures Showed(c, d, infos)
  {
    var k := d.consumed - m.consumed;
    assert [infos[0]] + infos[1..][..k] == infos[..k + 1];
  }

  lemma {:induction false} CollectTakesPrefix(infos: seq<Arrival>, c: Collected, limit: nat)
    requires Sorted(infos) && AllReceived(infos) && (infos != [] ==> infos[0].extTSN >= c.last)
    ensures Showed(c, Collect(infos, c, limit), infos)
  {
    if infos != [] {
      var m := Take(c, infos[0]);
      TakeShows(c, infos[0]);
      if |m.pkts| < limit {
        var rest := infos[1..];
        TailIsSorted(infos, rest);
        CollectTakesPrefix(rest, m, limit);
        ShowedOneMore(c, m, Collect(rest, m, limit), infos);
      } else {
        assert infos[..1] == [infos[0]];
      }
    }
  }

  /** Removing k elements from the front after having used k others is a loss unless they are the same. */
  lemma FrontMismatch(s: seq<Arrival>, late: nat, k: nat)
    requires 0 < late && 0 < k && late + k <= |s|
    requires s[0] !in s[late..][..k]
    ensures multiset(s[late..][..k]) + multiset(s[k..]) != multiset(s)
  {
    assert s == s[..k] + s[k..];
    assert s[..k][0] == s[0];
    assert s[0] in multiset(s[..k]);
    assert s[0] !in multiset(s[late..][..k]);
    assert multiset(s)[s[0]] == multiset(s[..k])[s[0]] + multiset(s[k..])[s[0]];
  }

  ghost predicate AllLate(infos: seq<Arrival>, last: u32) {
    forall i :: 0 <= i < |infos| ==> infos[i].extTSN < last
  }

  /** The collection comes out empty exactly when every pending record is below the last reported number. */
  lemma {:induction false} NothingCollectedIff(infos: seq<Arrival>, c: Collected, limit: nat)
    requires c.pkts == [] && c.consumed == 0
    ensures Collect(infos, c, limit).pkts == [] <==> AllLate(infos, c.last)
    ensures AllLate(infos, c.last) ==> Collect(infos, c, limit) == c
  {
    if infos != [] {
      if infos[0].extTSN < c.last {
        NothingCollectedIff(infos[1..], c, limit);
        LateTail(infos, c.last);
      } else {
        CollectGrows(infos[1..], Take(c, infos[0]), limit);
      }
    }
  }

  lemma LateTail(infos: seq<Arrival>, last: u32)
    requires infos != [] && infos[0].extTSN < last
    ensures AllLate(infos, last) <==> AllLate(infos[1..], last)
  {
    assert forall i :: 0 < i < |infos| ==> infos[i] == infos[1..][i - 1];
  }

  lemma {:induction false} CollectGrows(infos: seq<Arrival>, c: Collected, limit: nat)
    ensures |Collect(infos, c, limit).pkts| >= |c.pkts|
  {
    if infos != [] {
      if infos[0].extTSN < c.last {
        CollectGrows(infos[1..], c, limit);
      } else {
        CollectGrows(infos[1..], Take(c, infos[0]), limit);
      }
    }
  }

  /**
   Records are conserved by a report, each reported or kept, exactly when none of them is
   below the last reported number, or all of them are (and nothing is reported).
   */
  lemma ConservedUnlessLate(sorted: seq<Arrival>, last: u32, late: nat)
    requires Sorted(sorted) && AllReceived(sorted) && late <= |sorted|
    requires forall i :: 0 <= i < |sorted| ==> (sorted[i].extTSN < last <==> i < late)
    ensures var d := Collection(sorted, last);
            multiset(Taken(d.pkts)) + multiset(Leftover(sorted, d.consumed)) == multiset(sorted)
            <==> late == 0 || late == |sorted|
  {
    var c := Collected([], last, 0);
    CollectSkipsLate(sorted, late, c, Limit(|sorted|));
    CollectTakesPrefix(sorted[late..], c, Limit(|sorted|));
    var d := Collection(sorted, last);
    var k := d.consumed;
    assert Taken(d.pkts) == sorted[late..][..k];
    assert Leftover(sorted, k) == sorted[k..];
    if 0 < late < |sorted| {
      FrontMismatch(sorted, late, k);
    } else {
      assert sorted == sorted[..k] + sorted[k..];
    }
  }
}
