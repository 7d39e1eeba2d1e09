/**
 The index of recordings: a list per recording session, sorted by time and limited in length, and
 the search for the recording of a moment over all sessions.
 */
module Recordings {
  import opened SortedSearch

  /** A timestamp counts nanoseconds. */
  datatype Record = Record(filename: string, timestamp: int)

  ghost predicate SortedByTime(rs: seq<Record>) {
    forall i, j :: 0 <= i < j < |rs| ==> rs[i].timestamp <= rs[j].timestamp
  }

  // ---------------------------------------------------------------- pushing records

  /** How many records at the front are not after a time. */
  function PlaceOf(rs: seq<Record>, ts: int): (at: nat)
    ensures at <= |rs|
  {
    if rs == [] || ts < rs[0].timestamp then 0 else 1 + PlaceOf(rs[1..], ts)
  }

  lemma {:induction false} PlaceSplits(rs: seq<Record>, ts: int, at: nat)
    requires SortedByTime(rs) && at <= |rs|
    ensures at == PlaceOf(rs, ts) <==>
            (forall i :: 0 <= i < at ==> rs[i].timestamp <= ts) && (forall i :: at <= i < |rs| ==> ts < rs[i].timestamp)
  {
    if rs != [] && ts >= rs[0].timestamp && at > 0 {
      PlaceSplits(rs[1..], ts, at - 1);
      assert forall i :: 0 < i < |rs| ==> rs[i] == rs[1..][i - 1];
    }
  }

  lemma BorderIsPlaceOf(rs: seq<Record>, ts: int, at: nat)
    requires SortedByTime(rs) && at <= |rs|
    requires (at < |rs| ==> ts < rs[at].timestamp) && (at > 0 ==> rs[at - 1].timestamp <= ts)
    ensures at == PlaceOf(rs, ts)
  {
    PlaceSplits(rs, ts, at);
  }

  function Inserted(rs: seq<Record>, r: Record): seq<Record> {
    var at := PlaceOf(rs, r.timestamp);
    rs[..at] + [r] + rs[at..]
  }

  /** Room is made at the old end if the list is exactly full. */
  function Trimmed(rs: seq<Record>, limit: nat): seq<Record>
    requires limit > 0
  {
    if |rs| == limit then rs[1..] else rs
  }

  /** PushRecord, for a list that is sorted. */
  function Pushed(rs: seq<Record>, r: Record, limit: nat): seq<Record>
    requires limit > 0
  {
    Inserted(Trimmed(rs, limit), r)
  }

  lemma InsertedIsSorted(rs: seq<Record>, r: Record)
    requires SortedByTime(rs)
    ensures SortedByTime(Inserted(rs, r)) && multiset(Inserted(rs, r)) == multiset(rs) + multiset{r}
  {
    var at := PlaceOf(rs, r.timestamp);
    PlaceSplits(rs, r.timestamp, at);
    SplicedIsSorted(rs, at, r);
    SplicedContents(rs, at, r);
  }

  lemma SplicedIsSorted(rs: seq<Record>, at: nat, r: Record)
    requires SortedByTime(rs) && at <= |rs|
    requires (forall i :: 0 <= i < at ==> rs[i].timestamp <= r.timestamp)
    requires (forall i :: at <= i < |rs| ==> r.timestamp < rs[i].timestamp)
    ensures SortedByTime(rs[..at] + [r] + rs[at..])
  {}

  lemma SplicedContents<T>(s: seq<T>, at: nat, x: T)
    requires at <= |s|
    ensures multiset(s[..at] + [x] + s[at..]) == multiset(s) + multiset{x}
  {
    assert s == s[..at] + s[at..];
  }

  /**
   A push keeps the order and, from a list within the limit, the limit; the only record that it
   takes away is the oldest one of a full list.
   */
  lemma PushKeepsOrder(rs: seq<Record>, r: Record, limit: nat)
    requires SortedByTime(rs) && limit > 0
    ensures SortedByTime(Pushed(rs, r, limit))
    ensures |rs| <= limit ==> |Pushed(rs, r, limit)| == if |rs| == limit then limit else |rs| + 1
    ensures multiset(Pushed(rs, r, limit)) + (if |rs| == limit then multiset{rs[0]} else multiset{})
            == multiset(rs) + multiset{r}
  {
    InsertedIsSorted(if |rs| == limit then rs[1..] else rs, r);
    if |rs| == limit {
      assert rs == [rs[0]] + rs[1..];
    }
  }

  /** A list that is already over the limit, which the code compares with "==", grows with every push. */
  lemma OverlongListGrows(rs: seq<Record>, r: Record, limit: nat)
    requires 0 < limit < |rs|
    ensures |Pushed(rs, r, limit)| == |rs| + 1
  {}

  /** The list after a run of pushes. */
  function AfterPushes(ps: seq<Record>, limit: nat): seq<Record>
    requires limit > 0
  {
    if ps == [] then [] else Pushed(AfterPushes(ps[..|ps| - 1], limit), ps[|ps| - 1], limit)
  }

  /**
   After every run of pushes, the list is sorted, is as long as the limit allows, and has nothing
   that was not pushed.
   */
  lemma {:induction false} RunIsSortedAndBounded(ps: seq<Record>, limit: nat)
    requires limit > 0
    ensures SortedByTime(AfterPushes(ps, limit))
    ensures |AfterPushes(ps, limit)| == if |ps| < limit then |ps| else limit
    ensures multiset(AfterPushes(ps, limit)) <= multiset(ps)
  {
    if ps == [] {
      assert AfterPushes(ps, limit) == [];
    } else {
      var init, last := ps[..|ps| - 1], ps[|ps| - 1];
      assert ps == init + [last];
      RunIsSortedAndBounded(init, limit);
      MultisetOfAppended(init, last, ps);
      var before, after := AfterPushes(init, limit), AfterPushes(ps, limit);
      assert after == Pushed(before, last, limit);
      RunStep(before, last, limit, multiset(init));
    }
  }

  lemma MultisetOfAppended<T>(init: seq<T>, last: T, all: seq<T>)
    requires all == init + [last]
    ensures multiset(all) == multiset(init) + multiset{last}
  {}

  lemma RunStep(rs: seq<Record>, r: Record, limit: nat, all: multiset<Record>)
    requires limit > 0 && SortedByTime(rs) && |rs| <= limit && multiset(rs) <= all
    ensures SortedByTime(Pushed(rs, r, limit)) && multiset(Pushed(rs, r, limit)) <= all + multiset{r}
    ensures |Pushed(rs, r, limit)| == if |rs| == limit then limit else |rs| + 1
  {
    PushKeepsOrder(rs, r, limit);
    assert multiset(Pushed(rs, r, limit)) <= multiset(rs) + multiset{r};
  }

  lemma InsertedLast(rs: seq<Record>, r: Record)
    requires SortedByTime(rs) && forall i :: 0 <= i < |rs| ==> rs[i].timestamp <= r.timestamp
    ensures Inserted(rs, r) == rs + [r]
  {
    PlaceSplits(rs, r.timestamp, |rs|);
  }

  function Last(ps: seq<Record>, limit: nat): seq<Record> {
    if |ps| < limit then ps else ps[|ps| - limit..]
  }

  lemma LastStep(init: seq<Record>, r: Record, limit: nat)
    requires limit > 0 && SortedByTime(init + [r])
    ensures Pushed(Last(init, limit), r, limit) == Last(init + [r], limit)
  {
    var before := Last(init, limit);
    var kept := if |before| == limit then before[1..] else before;
    assert (init + [r])[|init|] == r;
    forall i | 0 <= i < |kept|
      ensures kept[i] == (init + [r])[|init| - |kept| + i] && kept[i].timestamp <= r.timestamp {}
    assert SortedByTime(kept);
    InsertedLast(kept, r);
    assert kept + [r] == Last(init + [r], limit);
  }

  /** When records come in the order of their times, the list is the last of them. */
  lemma {:induction false} RunInOrderKeepsTheLast(ps: seq<Record>, limit: nat)
    requires limit > 0 && SortedByTime(ps)
    ensures AfterPushes(ps, limit) == Last(ps, limit)
  {
    if ps != [] {
      var init, last := ps[..|ps| - 1], ps[|ps| - 1];
      RunInOrderKeepsTheLast(init, limit);
      assert ps == init + [last];
      LastStep(init, last, limit);
    }
  }

  lemma InsertedIsPushed(was: seq<Record>, rs: seq<Record>, r: Record, at: nat, limit: nat, now: seq<Record>)
    requires limit > 0 && rs == Trimmed(was, limit) && at <= |rs| && now == rs[..at] + [r] + rs[at..]
    requires (at < |rs| ==> r.timestamp < rs[at].timestamp) && (at > 0 ==> rs[at - 1].timestamp <= r.timestamp)
    ensures multiset(now) == multiset(rs) + multiset{r}
    ensures SortedByTime(was) ==> now == Pushed(was, r, limit)
  {
    SplicedContents(rs, at, r);
    if SortedByTime(was) {
      BorderIsPlaceOf(rs, r.timestamp, at);
    }
  }

  class Metadata {
    var records: seq<Record>
    const maxRecordFiles: nat

    constructor (limit: nat)
      ensures records == [] && maxRecordFiles == limit
    {
      records, maxRecordFiles := [], limit;
    }

    method PushRecord(filename: string, timestamp: int)
      requires maxRecordFiles > 0
      modifies this`records
      ensures var r, kept := Record(filename, timestamp), Trimmed(old(records), maxRecordFiles);
              multiset(records) == multiset(kept) + multiset{r}
      ensures old(SortedByTime(records)) ==>
                records == Pushed(old(records), Record(filename, timestamp), maxRecordFiles)
    {
      if |records| == maxRecordFiles {
        records := records[1..];
      }
      var rs := records;
      var before := (i: nat) => i < |rs| && timestamp < rs[i].timestamp;
      records := InsertSorted(rs, Record(filename, timestamp), before);
      ghost var at: nat :| InsertedAt(rs, Record(filename, timestamp), before, at, records);
      InsertedIsPushed(old(records), rs, Record(filename, timestamp), at, maxRecordFiles, records);
    }
  }

  // ---------------------------------------------------------------- names of sessions

  function Digit(c: char): int {
    c as int - '0' as int
  }

  predicate AllDigits(s: string) {
    forall i :: 0 <= i < |s| ==> 0 <= Digit(s[i]) < 10
  }

  /** The number that a decimal name stands for. */
  function Value(s: string): (v: nat)
    requires AllDigits(s)
  {
    if s == "" then 0 else 10 * Value(s[..|s| - 1]) + Digit(s[|s| - 1])
  }

  /** strings.Compare(a, b) < 0. */
  predicate Precedes(a: string, b: string) {
    if a == "" || b == "" then a == "" && b != ""
    else if a[0] == b[0] then Precedes(a[1..], b[1..])
    else a[0] < b[0]
  }

  lemma WithoutEnds(s: string)
    requires |s| > 1
    ensures s[1..][..|s| - 2] == s[..|s| - 1][1..]
    ensures s[..|s| - 1] == [s[0]] + s[..|s| - 1][1..]
  {}

  /** For names of one length, comparing without the last character comes first. */
  lemma {:induction false} PrecedesByLast(a: string, b: string)
    requires |a| == |b| > 0
    ensures var n := |a| - 1;
            Precedes(a, b) <==> Precedes(a[..n], b[..n]) || (a[..n] == b[..n] && a[n] < b[n])
  {
    var n := |a| - 1;
    if n == 0 {
      assert a[1..] == "" && b[1..] == "";
    } else if a[0] == b[0] {
      PrecedesByLast(a[1..], b[1..]);
      WithoutEnds(a);
      WithoutEnds(b);
    } else {
      assert a[..n][0] == a[0] && b[..n][0] == b[0];
    }
  }

  /** Decimal names of one length sort like the numbers they stand for, and no two stand for the same one. */
  lemma {:induction false} NamesSortLikeNumbers(a: string, b: string)
    requires AllDigits(a) && AllDigits(b) && |a| == |b|
    ensures Precedes(a, b) <==> Value(a) < Value(b)
    ensures a == b <==> Value(a) == Value(b)
  {
    if a != "" {
      var n := |a| - 1;
      NamesSortLikeNumbers(a[..n], b[..n]);
      PrecedesByLast(a, b);
      assert a == a[..n] + [a[n]] && b == b[..n] + [b[n]];
    }
  }

  /** With different lengths they do not. */
  lemma ShorterNameMaySortBehind()
    ensures AllDigits("10") && AllDigits("9") && Precedes("10", "9") && Value("10") > Value("9")
  {
    assert "10"[..1] == "1" && "1"[..0] == "" && "9"[..0] == "";
    assert Value("1") == 1 && Value("9") == 9;
  }

  /** Sorting by "not behind" is sorting by a total order. */
  lemma {:induction false} PrecedesIsAnOrder(a: string, b: string, c: string)
    ensures Precedes(a, b) ==> !Precedes(b, a)
    ensures !Precedes(b, a) && !Precedes(c, b) ==> !Precedes(c, a)
  {
    if a != "" && b != "" && c != "" {
      PrecedesIsAnOrder(a[1..], b[1..], c[1..]);
    }
    if a != "" && b != "" {
      PrecedesIsAnOrder(a[1..], b[1..], "");
    }
  }

  const MAX_INT64 := 0x7fff_ffff_ffff_ffff
  const MAX_UINT64 := 0xffff_ffff_ffff_ffff

  datatype Parsed = Number(value: nat) | NotANumber

  /** strconv.ParseUint after some digits: a number that is too large stops it, with the largest number. */
  function ParseDigits(s: string, n: nat): (r: Parsed)
    requires n <= MAX_UINT64
    ensures r.Number? ==> r.value <= MAX_UINT64
  {
    if s == "" then Number(n)
    else if !(0 <= Digit(s[0]) < 10) then NotANumber
    else if 10 * n + Digit(s[0]) > MAX_UINT64 then Number(MAX_UINT64)
    else ParseDigits(s[1..], 10 * n + Digit(s[0]))
  }

  /** strconv.ParseInt of base 10 and 64 bits, its error ignored: 0 for what is no number, else the nearest int64. */
  function ParseInt(s: string): (v: int)
    ensures InInt64(v)
  {
    var signed := s != "" && (s[0] == '+' || s[0] == '-');
    var digits := if signed then s[1..] else s;
    if digits == "" || ParseDigits(digits, 0).NotANumber? then 0
    else
      var n := ParseDigits(digits, 0).value;
      if signed && s[0] == '-' then if n > MAX_INT64 + 1 then -MAX_INT64 - 1 else 0 - n
      else if n > MAX_INT64 then MAX_INT64 else n
  }

  lemma {:induction false} ParseDigitsBack(s: string, c: char, n: nat)
    requires n <= MAX_UINT64 && AllDigits(s) && 0 <= Digit(c) < 10
    ensures ParseDigits(s, n).Number?
    ensures ParseDigits(s + [c], n) == var m := 10 * ParseDigits(s, n).value + Digit(c);
                                       Number(if m > MAX_UINT64 then MAX_UINT64 else m)
  {
    if s == "" {
      assert (s + [c])[1..] == "";
    } else {
      assert (s + [c])[1..] == s[1..] + [c];
      if 10 * n + Digit(s[0]) <= MAX_UINT64 {
        ParseDigitsBack(s[1..], c, 10 * n + Digit(s[0]));
      }
    }
  }

  lemma {:induction false} ParseDigitsIsValue(s: string)
    requires AllDigits(s)
    ensures ParseDigits(s, 0) == Number(if Value(s) > MAX_UINT64 then MAX_UINT64 else Value(s))
  {
    if s != "" {
      var n := |s| - 1;
      ParseDigitsIsValue(s[..n]);
      ParseDigitsBack(s[..n], s[n], 0);
      assert s == s[..n] + [s[n]];
    }
  }

  /** Anything but digits behind fewer than 20 digits gives 0, as does the empty name. */
  lemma NoNumberIsZero(s: string, i: nat)
    requires i < |s| && i < 20 && (forall j :: 0 <= j < i ==> '0' <= s[j] <= '9') && !('0' <= s[i] <= '9')
    requires i > 0 || (s[0] != '+' && s[0] != '-')
    ensures ParseInt(s) == 0 == ParseInt("")
  {
    ShortPrefix(s, 0, i, 0);
  }

  lemma {:induction false} ShortPrefix(s: string, n: nat, i: nat, before: nat)
    requires i < |s| && i + before < 20 && (forall j :: 0 <= j < i ==> '0' <= s[j] <= '9') && !('0' <= s[i] <= '9')
    requires n < TenTo(before) && before < 20
    ensures n <= MAX_UINT64 && ParseDigits(s, n).NotANumber?
  {
    TenPowers(before);
    if i > 0 {
      ShortPrefix(s[1..], 10 * n + Digit(s[0]), i - 1, before + 1);
    }
  }

  function TenTo(k: nat): (p: nat)
    ensures p > 0
  {
    if k == 0 then 1 else 10 * TenTo(k - 1)
  }

  lemma TenPowers(k: nat)
    requires k < 20
    ensures TenTo(k) <= 10_000_000_000_000_000_000
  {
    TenPower(k, 19);
    assert TenTo(5) == 100_000;
    assert TenTo(10) == 10_000_000_000;
    assert TenTo(15) == 1_000_000_000_000_000;
    assert TenTo(19) == 10_000_000_000_000_000_000;
  }

  lemma {:induction false} TenPower(k: nat, n: nat)
    requires k <= n
    ensures TenTo(k) <= TenTo(n)
  {
    if k < n {
      TenPower(k, n - 1);
    }
  }

  /** A sign in front of a decimal name. */
  lemma SignedNames(s: string)
    requires AllDigits(s) && s != ""
    ensures ParseInt("+" + s) == ParseInt(s)
    ensures ParseInt("-" + s) == if Value(s) >= 0x8000_0000_0000_0000 then -0x8000_0000_0000_0000
            else -(Value(s) as int)
  {
    ParseDigitsIsValue(s);
    assert ("+" + s)[1..] == s && ("-" + s)[1..] == s;
    assert 0 <= Digit(s[0]) < 10;
  }

  /** For decimal names, parsing gives the number they stand for, up to the largest int64. */
  lemma ParseIntIsValue(s: string)
    requires AllDigits(s)
    ensures ParseInt(s) == if Value(s) >= 0x8000_0000_0000_0000 then 0x7FFF_FFFF_FFFF_FFFF else Value(s)
  {
    ParseDigitsIsValue(s);
    assert s != "" ==> 0 <= Digit(s[0]) < 10;
  }

  /** A minus sign turns the order of the numbers around, but not that of the names. */
  lemma NegativeNamesSortBackwards()
    ensures Precedes("-1", "-2") && ParseInt("-1") == -1 && ParseInt("-2") == -2
  {
    assert "-1"[1..] == "1" && "-2"[1..] == "2" && "1"[1..] == "" && "2"[1..] == "";
    assert ParseDigits("1", 0) == Number(1) && ParseDigits("2", 0) == Number(2);
  }

  // ---------------------------------------------------------------- the lookup

  /** A directory of recordings, named by the time it was started. */
  datatype Session = Session(name: string, records: seq<Record>)

  datatype Lookup = Found(record: Record) | NoSession | NoRecord

  predicate InInt64(x: int) {
    -MAX_INT64 - 1 <= x <= MAX_INT64
  }

  /** What wraps around in the int64 subtraction of the comparisons. */
  function Int64(x: int): int
    requires -2 * (MAX_INT64 + 1) <= x <= 2 * (MAX_INT64 + 1)
  {
    if x > MAX_INT64 then x - MAX_UINT64 - 1
    else if x < -MAX_INT64 - 1 then x + MAX_UINT64 + 1
    else x
  }

  /** The wrapped difference has the right sign exactly when it does not wrap. */
  lemma ComparisonIsRightIff(ts: int, x: int)
    requires InInt64(ts) && InInt64(x)
    ensures (Int64(ts - x) < 0 <==> ts < x) && (Int64(ts - x) > 0 <==> ts > x) <==>
            -0x8000_0000_0000_0000 <= ts - x < 0x8000_0000_0000_0000
    ensures var d := Int64(ts - x) - (ts - x); d == 0 || d == 0x1_0000_0000_0000_0000 || d == -0x1_0000_0000_0000_0000
    ensures -0x8000_0000_0000_0000 <= Int64(ts - x) < 0x8000_0000_0000_0000
  {}

  function Start(s: Session): int {
    ParseInt(s.name)
  }

  ghost predicate SortedByName(ss: seq<Session>) {
    forall i, j :: 0 <= i < j < |ss| ==> !Precedes(ss[j].name, ss[i].name)
  }

  ghost predicate SortedByStart(ss: seq<Session>) {
    forall i, j :: 0 <= i < j < |ss| ==> Start(ss[i]) <= Start(ss[j])
  }

  /** The order of the names is that of the times. */
  ghost predicate NamesInOrder(ss: seq<Session>) {
    forall s, t :: s in ss && t in ss && !Precedes(t.name, s.name) ==> Start(s) <= Start(t)
  }

  /** As the recorder names them: decimal times, all of one length. */
  ghost predicate Decimal(ss: seq<Session>) {
    forall s, t :: s in ss && t in ss ==> AllDigits(s.name) && |s.name| == |t.name|
  }

  lemma DecimalNamesAreInOrder(ss: seq<Session>)
    requires Decimal(ss)
    ensures NamesInOrder(ss)
  {
    forall s, t | s in ss && t in ss && !Precedes(t.name, s.name) ensures Start(s) <= Start(t) {
      NamesSortLikeNumbers(t.name, s.name);
      ParseIntIsValue(s.name);
      ParseIntIsValue(t.name);
    }
  }

  /** No comparison of a moment wraps around; for moments and starts that are not negative none does. */
  ghost predicate StartsNear(ss: seq<Session>, ts: int) {
    forall s :: s in ss ==> InInt64(ts - Start(s))
  }

  ghost predicate TimesNear(rs: seq<Record>, ts: int) {
    forall r :: r in rs ==> InInt64(ts - r.timestamp)
  }

  /** A time as UnixNano gives it. */
  ghost predicate Times(rs: seq<Record>) {
    forall r :: r in rs ==> InInt64(r.timestamp)
  }

  /** The session that a moment falls into. */
  ghost predicate LatestSession(ss: seq<Session>, s: Session, ts: int) {
    s in ss && Start(s) <= ts && forall t :: t in ss && Start(t) <= ts ==> Start(t) <= Start(s)
  }

  ghost predicate LatestRecord(rs: seq<Record>, r: Record, ts: int) {
    r in rs && r.timestamp <= ts && forall q :: q in rs && q.timestamp <= ts ==> q.timestamp <= r.timestamp
  }

  lemma InsertedInOrder(dirs: seq<Session>, s: Session, at: nat, i: nat)
    requires SortedByName(dirs) && at <= |dirs| && i < |dirs|
    requires at < |dirs| ==> Precedes(s.name, dirs[at].name)
    requires at > 0 ==> !Precedes(s.name, dirs[at - 1].name)
    ensures if i < at then !Precedes(s.name, dirs[i].name) else !Precedes(dirs[i].name, s.name)
  {
    if i < at {
      PrecedesIsAnOrder(dirs[i].name, dirs[at - 1].name, s.name);
    } else {
      PrecedesIsAnOrder(s.name, dirs[at].name, dirs[i].name);
    }
  }

  lemma SplicedByName(dirs: seq<Session>, s: Session, at: nat)
    requires SortedByName(dirs) && at <= |dirs|
    requires forall i :: 0 <= i < at ==> !Precedes(s.name, dirs[i].name)
    requires forall i :: at <= i < |dirs| ==> !Precedes(dirs[i].name, s.name)
    ensures SortedByName(dirs[..at] + [s] + dirs[at..])
  {}

  /** One more session among sorted ones. */
  method InsertByName(dirs: seq<Session>, s: Session) returns (r: seq<Session>)
    requires SortedByName(dirs)
    ensures SortedByName(r) && multiset(r) == multiset(dirs) + multiset{s}
  {
    var before := (i: nat) => i < |dirs| && Precedes(s.name, dirs[i].name);
    r := InsertSorted(dirs, s, before);
    ghost var at: nat :| InsertedAt(dirs, s, before, at, r);
    forall i: nat | i < |dirs|
      ensures if i < at then !Precedes(s.name, dirs[i].name) else !Precedes(dirs[i].name, s.name)
    {
      InsertedInOrder(dirs, s, at, i);
    }
    SplicedByName(dirs, s, at);
    SplicedContents(dirs, at, s);
  }

  /** The sessions in the order of their names. */
  method SortByName(ss: seq<Session>) returns (dirs: seq<Session>)
    ensures SortedByName(dirs) && multiset(dirs) == multiset(ss)
  {
    dirs := [];
    for i := 0 to |ss|
      invariant SortedByName(dirs) && multiset(dirs) == multiset(ss[..i])
    {
      dirs := InsertByName(dirs, ss[i]);
      assert ss[..i + 1] == ss[..i] + [ss[i]];
    }
    assert ss[..|ss|] == ss;
  }

  lemma SortedNamesSortStarts(ss: seq<Session>, dirs: seq<Session>)
    requires NamesInOrder(ss) && SortedByName(dirs) && multiset(dirs) == multiset(ss)
    ensures SortedByStart(dirs)
  {
    forall i, j | 0 <= i < j < |dirs| ensures Start(dirs[i]) <= Start(dirs[j]) {
      assert dirs[i] in multiset(ss) && dirs[j] in multiset(ss);
    }
  }

  lemma StartsDescend(ss: seq<Session>, dirs: seq<Session>, ts: int, compare: nat -> int)
    requires SortedByStart(dirs) && StartsNear(ss, ts) && multiset(ss) == multiset(dirs)
    requires InInt64(ts) && forall i: nat :: i < |dirs| ==> compare(i) == Int64(ts - Start(dirs[i]))
    ensures Descends(|dirs|, compare)
    ensures forall i: nat :: i < |dirs| ==> compare(i) == ts - Start(dirs[i])
  {
    forall i: nat | i < |dirs| ensures compare(i) == ts - Start(dirs[i]) {
      assert dirs[i] in multiset(ss);
    }
  }

  /** The session for a moment; None if all of them were started later. */
  method FindSession(ss: seq<Session>, ts: int) returns (found: bool, s: Session)
    requires InInt64(ts)
    ensures found ==> s in ss
    ensures NamesInOrder(ss) && StartsNear(ss, ts) && found ==> LatestSession(ss, s, ts)
    ensures NamesInOrder(ss) && StartsNear(ss, ts) ==> (!found <==> forall t :: t in ss ==> ts < Start(t))
  {
    var dirs := SortByName(ss);
    var compare := (i: nat) => if i < |dirs| then Int64(ts - Start(dirs[i])) else 0;
    var index := SearchElementOrSmaller(|dirs|, compare);
    found := index >= 0;
    s := if found then dirs[index] else Session("", []);
    assert found ==> s in multiset(dirs);
    if NamesInOrder(ss) && StartsNear(ss, ts) {
      SortedNamesSortStarts(ss, dirs);
      StartsDescend(ss, dirs, ts, compare);
      SessionFound(ss, dirs, ts, compare, index);
    }
  }

  lemma SessionFound(ss: seq<Session>, dirs: seq<Session>, ts: int, compare: nat -> int, index: int)
    requires IsPredecessor(|dirs|, compare, index) && multiset(ss) == multiset(dirs) && SortedByStart(dirs)
    requires forall i: nat :: i < |dirs| ==> compare(i) == ts - Start(dirs[i])
    ensures index >= 0 ==> LatestSession(ss, dirs[index], ts)
    ensures index < 0 <==> forall t :: t in ss ==> ts < Start(t)
  {
    forall t | t in ss
      ensures if index < 0 then ts < Start(t) else Start(t) <= ts ==> Start(t) <= Start(dirs[index])
    {
      assert t in multiset(dirs);
      var i: nat :| i < |dirs| && t == dirs[i];
      assert i <= index || compare(i) < 0 || compare(i) == compare(index);
    }
    if index >= 0 {
      assert dirs[index] in multiset(ss) && compare(index) >= 0;
    }
  }

  /** The last record at or before a moment; None if there is none. */
  method FindRecord(rs: seq<Record>, ts: int) returns (found: bool, r: Record)
    requires InInt64(ts) && Times(rs)
    ensures found ==> r in rs
    ensures SortedByTime(rs) && TimesNear(rs, ts) && found ==> LatestRecord(rs, r, ts)
    ensures SortedByTime(rs) && TimesNear(rs, ts) ==> (!found <==> forall q :: q in rs ==> ts < q.timestamp)
  {
    assert forall i :: 0 <= i < |rs| ==> rs[i] in rs;
    var compare := (i: nat) => if i < |rs| then Int64(ts - rs[i].timestamp) else 0;
    var index := SearchElementOrSmaller(|rs|, compare);
    found := index >= 0;
    r := if found then rs[index] else Record("", 0);
    if SortedByTime(rs) && TimesNear(rs, ts) {
      RecordFound(rs, ts, compare, index);
    }
  }

  lemma RecordFound(rs: seq<Record>, ts: int, compare: nat -> int, index: int)
    requires SortedByTime(rs) && TimesNear(rs, ts) && InInt64(ts) && Times(rs)
    requires forall i: nat :: i < |rs| ==>
             compare(i) == if InInt64(rs[i].timestamp) then Int64(ts - rs[i].timestamp) else 0
    requires Descends(|rs|, compare) ==> IsPredecessor(|rs|, compare, index)
    ensures index >= 0 ==> index < |rs| && LatestRecord(rs, rs[index], ts)
    ensures index < 0 <==> forall q :: q in rs ==> ts < q.timestamp
  {
    forall i: nat | i < |rs| ensures compare(i) == ts - rs[i].timestamp {
      assert rs[i] in rs;
    }
    assert Descends(|rs|, compare);
    assert index >= 0 ==> rs[index] in rs && rs[index].timestamp <= ts;
    forall i: nat | i < |rs|
      ensures if index < 0 then ts < rs[i].timestamp else rs[i].timestamp <= ts ==>
              rs[i].timestamp <= rs[index].timestamp
    {
      assert i <= index || compare(i) < 0 || compare(i) == compare(index);
    }
  }

  /** What makes both searches right: sorted lists, and no comparison that wraps around. */
  ghost predicate Searchable(ss: seq<Session>, ts: int) {
    && NamesInOrder(ss) && StartsNear(ss, ts)
    && (forall s :: s in ss ==> SortedByTime(s.records) && TimesNear(s.records, ts))
  }

  /**
   The two-level lookup of GetAndUploadRecordFile: the last record at or before the moment, of the
   last session that was started at or before it.
   */
  method GetRecord(ss: seq<Session>, ts: int) returns (r: Lookup)
    requires InInt64(ts) && forall s :: s in ss ==> Times(s.records)
    ensures r.Found? ==> Retained(ss, r.record)
    ensures Searchable(ss, ts) ==> (r == NoSession <==> forall t :: t in ss ==> ts < Start(t))
    ensures Searchable(ss, ts) && r == NoRecord ==>
              exists s :: LatestSession(ss, s, ts) && forall q :: q in s.records ==> ts < q.timestamp
    ensures Searchable(ss, ts) && r.Found? ==>
            exists s :: LatestSession(ss, s, ts) && LatestRecord(s.records, r.record, ts)
  {
    var found, s := FindSession(ss, ts);
    if !found {
      return NoSession;
    }
    var hit, rec := FindRecord(s.records, ts);
    if !hit {
      return NoRecord;
    }
    r := Found(rec);
  }

  // ---------------------------------------------------------------- the lookup over all sessions

  ghost predicate Retained(ss: seq<Session>, r: Record) {
    exists s :: s in ss && r in s.records
  }

  /** The record that the user means: the last one at or before the moment, in whatever session. */
  ghost predicate LatestOfAll(ss: seq<Session>, r: Record, ts: int) {
    Retained(ss, r) && r.timestamp <= ts && forall q :: Retained(ss, q) && q.timestamp <= ts ==>
        q.timestamp <= r.timestamp
  }

  /** Sessions do not overlap: no record is older than its own session, or newer than a later one. */
  ghost predicate Successive(ss: seq<Session>) {
    && (forall s, r :: s in ss && r in s.records ==> Start(s) <= r.timestamp)
    && (forall s, t, r :: s in ss && t in ss && Start(s) < Start(t) && r in s.records ==> r.timestamp <= Start(t))
    && (forall s, t :: s in ss && t in ss && Start(s) == Start(t) ==> s == t)
  }

  /**
   For sessions that do not overlap, what the lookup finds is the latest record of all, with none
   retained in between; and it finds one exactly when the session of the moment itself has one.
   */
  lemma FoundIsLatestOfAll(ss: seq<Session>, s: Session, ts: int)
    requires Successive(ss) && LatestSession(ss, s, ts)
    ensures forall r :: LatestRecord(s.records, r, ts) ==> LatestOfAll(ss, r, ts)
    ensures (exists r :: LatestOfAll(ss, r, ts) && r in s.records) <==> exists q :: q in s.records && q.timestamp <= ts
  {
    forall r | LatestRecord(s.records, r, ts) ensures LatestOfAll(ss, r, ts) {
      forall q | Retained(ss, q) && q.timestamp <= ts ensures q.timestamp <= r.timestamp {
        var t :| t in ss && q in t.records;
        assert Start(t) <= Start(s);
      }
    }
    if q :| q in s.records && q.timestamp <= ts {
      var r := LatestExists(s.records, ts, q);
    }
  }

  lemma {:induction false} LatestExists(rs: seq<Record>, ts: int, q: Record) returns (r: Record)
    requires q in rs && q.timestamp <= ts
    ensures LatestRecord(rs, r, ts)
  {
    var last, init := rs[|rs| - 1], rs[..|rs| - 1];
    assert rs == init + [last];
    if p :| p in init && p.timestamp <= ts {
      r := LatestExists(init, ts, p);
      if last.timestamp <= ts && last.timestamp > r.timestamp {
        r := last;
      }
    } else {
      r := last;
    }
  }

  /**
   When the limit has taken away the beginning of a session, a moment in it finds nothing, even
   though an earlier session still has a record before that moment (EarlierRecordIsLatestOfAll).
   */
  method TrimmedSessionHidesEarlierOnes() returns (r: Lookup)
    ensures r == NoRecord
  {
    var older, newer := Session("1", [Record("a", 1)]), Session("3", [Record("b", 6)]);
    assert "1"[1..] == "" && "3"[1..] == "";
    assert Start(older) == ParseDigits("1", 0).value == 1 && Start(newer) == ParseDigits("3", 0).value == 3;
    r := GetRecord([older, newer], 5);
    assert newer in [older, newer];
    assert forall s :: LatestSession([older, newer], s, 5) ==> s == newer;
    assert forall q :: q in newer.records ==> q == Record("b", 6);
  }

  lemma EarlierRecordIsLatestOfAll(older: Session, newer: Session)
    requires older.records == [Record("a", 1)] && newer.records == [Record("b", 6)]
    ensures LatestOfAll([older, newer], Record("a", 1), 5)
  {
    assert older in [older, newer] && newer in [older, newer];
  }
}
