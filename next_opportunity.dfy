/**
 `updateNextOpportunity`: one record per region, sorted so that active regions
 come first and the others follow by the hour field of their countdown; the
 head of the sorted list is the opportunity shown.
 */
module NextOpportunity {
  import opened Clock
  import opened DiscountTable
  import opened DiscountStatus

  datatype Opportunity = Opportunity(region: string, timeInfo: Countdown, isActive: bool, sortValue: int)

  /** The record the script pushes for one region. */
  function RecordFor(e: Entry, t: UtcTime): (r: Opportunity)
    ensures r.region == e.window.name && r.timeInfo == CountdownAt(e, t)
    ensures r.isActive <==> r.timeInfo.phase == Ends
    ensures r.isActive ==> r.sortValue == 0
    ensures WellFormed(e.window) ==> 0 <= r.sortValue <= 24
  {
    var active := IsDiscountActive(e, t.hour);
    var c := CountdownAt(e, t);
    Opportunity(e.window.name, c, active, if active then 0 else c.hoursUntil)
  }

  function Records(table: seq<Entry>, t: UtcTime): seq<Opportunity>
  {
    seq(|table|, i requires 0 <= i < |table| => RecordFor(table[i], t))
  }

  /** The comparator handed to `sort`. */
  function Compare(a: Opportunity, b: Opportunity): (r: int)
    ensures r == 0 <==> KeyOf(a) == KeyOf(b)
    ensures r < 0 <==> KeyBefore(KeyOf(a), KeyOf(b))
  {
    if a.isActive && !b.isActive then -1
    else if !a.isActive && b.isActive then 1
    else a.sortValue - b.sortValue
  }

  /** What the comparator looks at. */
  datatype SortKey = SortKey(isActive: bool, sortValue: int)

  function KeyOf(r: Opportunity): SortKey
  {
    SortKey(r.isActive, r.sortValue)
  }

  /** Lexicographic order: active before inactive, then ascending sort value. */
  predicate KeyBefore(k: SortKey, l: SortKey)
  {
    (k.isActive && !l.isActive) || (k.isActive == l.isActive && k.sortValue < l.sortValue)
  }

  predicate Sorted(s: seq<Opportunity>)
  {
    forall i, j :: 0 <= i < j < |s| ==> Compare(s[i], s[j]) <= 0
  }

  /** A sorted list puts every active record before every inactive one, and the
      inactive ones in ascending sort value. */
  lemma SortedOrder(s: seq<Opportunity>)
    requires Sorted(s)
    ensures forall i, j :: 0 <= i < j < |s| && s[j].isActive ==> s[i].isActive
    ensures forall i, j :: 0 <= i < j < |s| && !s[i].isActive && !s[j].isActive ==>
      s[i].sortValue <= s[j].sortValue
  {
  }

  /** The records of `s` whose key is `k`, in their order in `s`. */
  function WithKey(s: seq<Opportunity>, k: SortKey): seq<Opportunity>
  {
    if s == [] then []
    else (if KeyOf(s[0]) == k then [s[0]] else []) + WithKey(s[1..], k)
  }

  /** Stability: records with equal keys keep their relative order. */
  ghost predicate KeepsKeyOrder(s: seq<Opportunity>, r: seq<Opportunity>)
  {
    forall k :: WithKey(r, k) == WithKey(s, k)
  }

  lemma {:induction false} WithKeyAppend(s: seq<Opportunity>, u: seq<Opportunity>, k: SortKey)
    ensures WithKey(s + u, k) == WithKey(s, k) + WithKey(u, k)
  {
    if s == [] {
      assert s + u == u;
    } else {
      assert (s + u)[1..] == s[1..] + u;
      WithKeyAppend(s[1..], u, k);
    }
  }

  /** Exchanging two neighbours with different keys keeps every key's order. */
  lemma SwapKeepsKeyOrder(s: seq<Opportunity>, j: int)
    requires 0 < j < |s| && KeyOf(s[j - 1]) != KeyOf(s[j])
    ensures KeepsKeyOrder(s, s[j - 1 := s[j]][j := s[j - 1]])
  {
    var p, x, y, q := s[..j - 1], s[j - 1], s[j], s[j + 1..];
    assert s == p + [x, y] + q;
    var r := s[j - 1 := y][j := x];
    assert r == p + [y, x] + q;
    forall k
      ensures WithKey(r, k) == WithKey(s, k)
    {
      WithKeyAppend(p + [x, y], q, k);
      WithKeyAppend(p, [x, y], k);
      WithKeyAppend(p + [y, x], q, k);
      WithKeyAppend(p, [y, x], k);
      WithKeyAppend([x], [y], k);
      WithKeyAppend([y], [x], k);
    }
  }

  /** Transitivity of the comparator's "not after". */
  lemma CompareTransitive(a: Opportunity, b: Opportunity, c: Opportunity)
    requires Compare(a, b) <= 0 && Compare(b, c) <= 0
    ensures Compare(a, c) <= 0
  {
  }

  /** One exchange of neighbours, which the comparator puts out of order. */
  method SwapDown(a: array<Opportunity>, j: int)
    requires 0 < j < a.Length && Compare(a[j - 1], a[j]) > 0
    modifies a
    ensures a[..] == old(a[..])[j - 1 := old(a[j])][j := old(a[j - 1])]
    ensures multiset(a[..]) == multiset(old(a[..]))
    ensures KeepsKeyOrder(old(a[..]), a[..])
  {
    SwapKeepsKeyOrder(a[..], j);
    a[j - 1], a[j] := a[j], a[j - 1];
  }

  /** Moves `a[i]` down into the sorted prefix `a[..i]`. */
  method InsertDown(a: array<Opportunity>, i: int)
    requires 0 <= i < a.Length
    requires forall p, q :: 0 <= p < q < i ==> Compare(a[p], a[q]) <= 0
    modifies a
    ensures forall p, q :: 0 <= p < q <= i ==> Compare(a[p], a[q]) <= 0
    ensures a[i + 1..] == old(a[i + 1..])
    ensures multiset(a[..]) == multiset(old(a[..]))
    ensures KeepsKeyOrder(old(a[..]), a[..])
  {
    var j := i;
    while j > 0 && Compare(a[j - 1], a[j]) > 0
      invariant 0 <= j <= i
      invariant forall p, q :: 0 <= p < q <= i && p != j && q != j ==> Compare(a[p], a[q]) <= 0
      invariant forall q :: j < q <= i ==> Compare(a[j], a[q]) < 0
      invariant a[i + 1..] == old(a[i + 1..])
      invariant multiset(a[..]) == multiset(old(a[..]))
      invariant KeepsKeyOrder(old(a[..]), a[..])
    {
      SwapDown(a, j);
      j := j - 1;
    }
    forall p, q | 0 <= p < q <= i
      ensures Compare(a[p], a[q]) <= 0
    {
      if q == j && p < j - 1 {
        CompareTransitive(a[p], a[j - 1], a[j]);
      }
    }
  }

  /** The in-place sort: insertion by exchanging neighbours. */
  method SortInPlace(a: array<Opportunity>)
    modifies a
    ensures Sorted(a[..])
    ensures multiset(a[..]) == multiset(old(a[..]))
    ensures KeepsKeyOrder(old(a[..]), a[..])
  {
    var i := 0;
    while i < a.Length
      invariant 0 <= i <= a.Length
      invariant forall p, q :: 0 <= p < q < i ==> Compare(a[p], a[q]) <= 0
      invariant multiset(a[..]) == multiset(old(a[..]))
      invariant KeepsKeyOrder(old(a[..]), a[..])
    {
      InsertDown(a, i);
      i := i + 1;
    }
  }

  /** Between two inactive regions at the same instant, ordering by the hour field
      alone is ordering by the minutes left: the minute fields are equal. */
  lemma InactiveOrderFollowsMinutes(e1: Entry, e2: Entry, t: UtcTime)
    requires !IsDiscountActive(e1, t.hour) && !IsDiscountActive(e2, t.hour)
    ensures RecordFor(e1, t).sortValue <= RecordFor(e2, t).sortValue
      <==> MinutesUntilNext(e1, t) <= MinutesUntilNext(e2, t)
  {
    var c1, c2 := CountdownAt(e1, t), CountdownAt(e2, t);
    CountdownFields(e1, t);
    CountdownFields(e2, t);
    assert c1.minutesUntil == c2.minutesUntil;
    assert RecordFor(e1, t).sortValue == c1.hoursUntil && RecordFor(e2, t).sortValue == c2.hoursUntil;
    assert MinutesUntilNext(e1, t) - MinutesUntilNext(e2, t) == (c1.hoursUntil - c2.hoursUntil) * 60;
  }

  /** The head of a sorted permutation is active iff some record is, and otherwise
      has the least sort value. */
  lemma HeadOfRanking(s: seq<Opportunity>, r: seq<Opportunity>)
    requires |s| > 0 && multiset(r) == multiset(s) && Sorted(r)
    ensures |r| == |s| && r[0] in s
    ensures r[0].isActive <==> exists x :: x in s && x.isActive
    ensures !r[0].isActive ==> forall x :: x in s ==> r[0].sortValue <= x.sortValue
  {
    assert |r| == |multiset(r)| == |multiset(s)| == |s|;
    assert r[0] in multiset(r);
    forall x | x in s
      ensures Compare(r[0], x) <= 0
    {
      assert x in multiset(r);
      var j :| 0 <= j < |r| && r[j] == x;
      assert j == 0 || Compare(r[0], r[j]) <= 0;
    }
  }

  /** `updateNextOpportunity`: builds the records in table order, sorts them in
      place and takes the first. */
  method UpdateNextOpportunity(t: UtcTime) returns (next: Opportunity, ranked: seq<Opportunity>)
    ensures multiset(ranked) == multiset(Records(DiscountWindows, t))
    ensures Sorted(ranked) && KeepsKeyOrder(Records(DiscountWindows, t), ranked)
    ensures |ranked| == |DiscountWindows| && next == ranked[0]
    ensures forall r :: r in ranked ==> r.sortValue == if r.isActive then 0 else r.timeInfo.hoursUntil
    ensures next.isActive <==> exists e :: e in DiscountWindows && IsDiscountActive(e, t.hour)
    ensures !next.isActive ==>
      forall e :: e in DiscountWindows ==> TotalMinutes(next.timeInfo) <= MinutesUntilNext(e, t)
  {
    var opportunities: seq<Opportunity> := [];
    for i := 0 to |DiscountWindows|
      invariant opportunities == Records(DiscountWindows[..i], t)
    {
      var e := DiscountWindows[i];
      var timeInfo := TimeUntilNext(e, t);
      var isActive := IsDiscountActive(e, t.hour);
      opportunities := opportunities + [Opportunity(e.window.name, timeInfo, isActive,
                                                    if isActive then 0 else timeInfo.hoursUntil)];
    }
    assert DiscountWindows[..|DiscountWindows|] == DiscountWindows;
    var a := new Opportunity[|opportunities|](k requires 0 <= k < |opportunities| => opportunities[k]);
    assert a[..] == opportunities;
    SortInPlace(a);
    ranked := a[..];
    next := a[0];
    RankingFacts(DiscountWindows, t, ranked);
  }

  /** Every record that the script builds carries its countdown's hour field as
      sort value when inactive, and 0 when active. */
  lemma RecordsSortValue(table: seq<Entry>, t: UtcTime, ranked: seq<Opportunity>)
    requires multiset(ranked) == multiset(Records(table, t))
    ensures forall r :: r in ranked ==> r.sortValue == if r.isActive then 0 else r.timeInfo.hoursUntil
  {
    forall r | r in ranked
      ensures r.sortValue == if r.isActive then 0 else r.timeInfo.hoursUntil
    {
      assert r in multiset(ranked);
      assert r in Records(table, t);
    }
  }

  lemma SomeRecordActive(table: seq<Entry>, t: UtcTime)
    ensures (exists x :: x in Records(table, t) && x.isActive)
      <==> exists e :: e in table && IsDiscountActive(e, t.hour)
  {
    var s := Records(table, t);
    if exists x :: x in s && x.isActive {
      var x :| x in s && x.isActive;
      var j :| 0 <= j < |s| && s[j] == x;
      assert table[j] in table && IsDiscountActive(table[j], t.hour);
    }
    if exists e :: e in table && IsDiscountActive(e, t.hour) {
      var e :| e in table && IsDiscountActive(e, t.hour);
      var j :| 0 <= j < |table| && table[j] == e;
      assert s[j] in s && s[j].isActive;
    }
  }

  /** When no region is active, the head of the ranking is a region whose window
      opens soonest. */
  lemma HeadOpensSoonest(table: seq<Entry>, t: UtcTime, ranked: seq<Opportunity>)
    requires |table| > 0
    requires multiset(ranked) == multiset(Records(table, t)) && Sorted(ranked)
    requires !ranked[0].isActive
    ensures forall e :: e in table ==> TotalMinutes(ranked[0].timeInfo) <= MinutesUntilNext(e, t)
  {
    var s := Records(table, t);
    HeadOfRanking(s, ranked);
    var i :| 0 <= i < |s| && s[i] == ranked[0];
    forall e | e in table
      ensures TotalMinutes(ranked[0].timeInfo) <= MinutesUntilNext(e, t)
    {
      var j :| 0 <= j < |table| && table[j] == e;
      assert s[j] in s;
      InactiveOrderFollowsMinutes(table[i], e, t);
    }
  }

  /** What the sorted records say about the regions they came from. */
  lemma RankingFacts(table: seq<Entry>, t: UtcTime, ranked: seq<Opportunity>)
    requires |table| > 0
    requires multiset(ranked) == multiset(Records(table, t)) && Sorted(ranked)
    ensures |ranked| == |table|
    ensures forall r :: r in ranked ==> r.sortValue == if r.isActive then 0 else r.timeInfo.hoursUntil
    ensures ranked[0].isActive <==> exists e :: e in table && IsDiscountActive(e, t.hour)
    ensures !ranked[0].isActive ==>
      forall e :: e in table ==> TotalMinutes(ranked[0].timeInfo) <= MinutesUntilNext(e, t)
  {
    HeadOfRanking(Records(table, t), ranked);
    RecordsSortValue(table, t, ranked);
    SomeRecordActive(table, t);
    if !ranked[0].isActive {
      HeadOpensSoonest(table, t, ranked);
    }
  }
}
