/**
 * The filtered, date-ordered, paginated listing of practices
 * (server/src/handlers/get_swimming_practices.ts).
 */
module Listing {
  import opened Schema
  import opened Filters

  /** Most recent first: dates never increase along the sequence. */
  predicate DateDescending(s: seq<Practice>) {
    forall i, j :: 0 <= i < j < |s| ==> s[i].date >= s[j].date
  }

  /** No two positions of the sequence hold the same date. */
  predicate DatesDistinct(s: seq<Practice>) {
    forall i, j :: 0 <= i < j < |s| ==> s[i].date != s[j].date
  }

  /** Puts `p` into a most-recent-first sequence, ahead of the first record not newer than it. */
  function InsertByDate(p: Practice, s: seq<Practice>): (r: seq<Practice>)
    requires DateDescending(s)
    ensures DateDescending(r)
    ensures multiset(r) == multiset(s) + multiset{p}
  {
    if s == [] || p.date >= s[0].date then [p] + s
    else
      var rest := InsertByDate(p, s[1..]);
      assert s == [s[0]] + s[1..];
      NotNewerThanHead(p, s, rest);
      [s[0]] + rest
  }

  /** Behind the head of a most-recent-first sequence, an insertion of an older record stays sorted. */
  lemma NotNewerThanHead(p: Practice, s: seq<Practice>, rest: seq<Practice>)
    requires s != [] && DateDescending(s) && p.date < s[0].date
    requires DateDescending(rest) && multiset(rest) == multiset(s[1..]) + multiset{p}
    ensures DateDescending([s[0]] + rest)
  {
    forall x | x in rest ensures x.date <= s[0].date {
      assert x in multiset(rest);
      if x != p {
        assert x in s[1..];
      }
    }
    var r := [s[0]] + rest;
    forall i, j | 0 <= i < j < |r| ensures r[i].date >= r[j].date {
      if i == 0 {
        assert r[j] in rest;
      } else {
        assert r[i] == rest[i - 1] && r[j] == rest[j - 1];
      }
    }
  }

  /**
   * ORDER BY date DESC: the same records, most recent first. The order among equal dates is
   * left to the store, and the contract does not fix it.
   */
  function SortByDateDesc(s: seq<Practice>): (r: seq<Practice>)
    ensures DateDescending(r)
    ensures multiset(r) == multiset(s)
  {
    if s == [] then []
    else
      assert s == [s[0]] + s[1..];
      InsertByDate(s[0], SortByDateDesc(s[1..]))
  }

  /** The records of an insertion are the inserted one and those of the sequence. */
  lemma InsertMembers(p: Practice, s: seq<Practice>)
    requires DateDescending(s)
    ensures forall x :: x in InsertByDate(p, s) <==> x == p || x in s
  {
    var r := InsertByDate(p, s);
    forall x ensures x in r <==> x == p || x in s {
      assert x in r <==> x in multiset(r);
      assert x in s <==> x in multiset(s);
    }
  }

  /** A record put ahead of a sequence with distinct dates, with a date none of them has, keeps them distinct. */
  lemma ConsKeepsDatesDistinct(x: Practice, s: seq<Practice>)
    requires DatesDistinct(s)
    requires forall y :: y in s ==> y.date != x.date
    ensures DatesDistinct([x] + s)
  {
    var r := [x] + s;
    forall i, j | 0 <= i < j < |r| ensures r[i].date != r[j].date {
      if i == 0 {
        assert r[j] == s[j - 1];
      } else {
        assert r[i] == s[i - 1] && r[j] == s[j - 1];
      }
    }
  }

  /** Inserting a record whose date no record of `s` has keeps the dates distinct. */
  lemma {:induction false} InsertKeepsDatesDistinct(p: Practice, s: seq<Practice>)
    requires DateDescending(s) && DatesDistinct(s)
    requires forall x :: x in s ==> x.date != p.date
    ensures DatesDistinct(InsertByDate(p, s))
  {
    if s == [] || p.date >= s[0].date {
      ConsKeepsDatesDistinct(p, s);
    } else {
      var tail := s[1..];
      assert s == [s[0]] + tail;
      assert DateDescending(tail) && DatesDistinct(tail);
      InsertKeepsDatesDistinct(p, tail);
      var rest := InsertByDate(p, tail);
      InsertMembers(p, tail);
      forall y | y in rest ensures y.date != s[0].date {
        if y != p {
          var k :| 0 <= k < |tail| && tail[k] == y;
          assert s[k + 1] == y;
        }
      }
      ConsKeepsDatesDistinct(s[0], rest);
    }
  }

  /** Sorting records with distinct dates keeps them distinct. */
  lemma {:induction false} SortKeepsDatesDistinct(s: seq<Practice>)
    requires DatesDistinct(s)
    ensures DatesDistinct(SortByDateDesc(s))
  {
    if s != [] {
      SortKeepsDatesDistinct(s[1..]);
      var sorted := SortByDateDesc(s[1..]);
      forall x | x in sorted ensures x.date != s[0].date {
        assert x in multiset(sorted);
      }
      InsertKeepsDatesDistinct(s[0], sorted);
    }
  }

  /** Keeping only the matching rows of rows with distinct dates keeps the dates distinct. */
  lemma {:induction false} SelectedKeepsDatesDistinct(
    rows: seq<Practice>, stroke: Option<Stroke>, from: Option<Date>, to: Option<Date>)
    requires DatesDistinct(rows)
    ensures DatesDistinct(Selected(rows, stroke, from, to))
  {
    if rows != [] {
      SelectedKeepsDatesDistinct(rows[1..], stroke, from, to);
      forall x | x in Selected(rows[1..], stroke, from, to) ensures x.date != rows[0].date {
        var k :| 0 <= k < |rows[1..]| && rows[1..][k] == x;
        assert rows[k + 1] == x;
      }
    }
  }

  function Min(a: int, b: int): int {
    if a <= b then a else b
  }

  function Max(a: int, b: int): int {
    if a >= b then a else b
  }

  /** LIMIT/OFFSET: skip `offset` records, then keep at most `limit`. */
  function Page<T>(s: seq<T>, offset: nat, limit: nat): (r: seq<T>)
    ensures |r| == Min(limit, Max(0, |s| - offset))
    ensures forall i :: 0 <= i < |r| ==> r[i] == s[offset + i]
  {
    if offset >= |s| then [] else s[offset..Min(|s|, offset + limit)]
  }

  /**
   * A page holds no record more often than the sequence does, and the page at offset 0
   * whose limit covers the whole sequence is the sequence itself.
   */
  lemma PageWithin<T>(s: seq<T>, offset: nat, limit: nat)
    ensures multiset(Page(s, offset, limit)) <= multiset(s)
    ensures offset == 0 && |s| <= limit ==> Page(s, offset, limit) == s
  {
    if offset < |s| {
      var e := Min(|s|, offset + limit);
      assert s == s[..offset] + s[offset..e] + s[e..];
      assert multiset(s) == multiset(s[..offset]) + multiset(s[offset..e]) + multiset(s[e..]);
    }
  }

  /**
   * A page of a most-recent-first ordering of `m` is most recent first, holds only records of
   * `m` and none more often than `m` does, and at offset 0 with a covering limit holds all of `m`.
   */
  lemma PageOfOrdering(m: seq<Practice>, sorted: seq<Practice>, offset: nat, limit: nat)
    requires DateDescending(sorted) && multiset(sorted) == multiset(m)
    ensures DateDescending(Page(sorted, offset, limit))
    ensures forall p :: p in Page(sorted, offset, limit) ==> p in m
    ensures multiset(Page(sorted, offset, limit)) <= multiset(m)
    ensures offset == 0 && |m| <= limit ==> multiset(Page(sorted, offset, limit)) == multiset(m)
  {
    var r := Page(sorted, offset, limit);
    PageWithin(sorted, offset, limit);
    forall i, j | 0 <= i < j < |r| ensures r[i].date >= r[j].date {
      assert r[i] == sorted[offset + i] && r[j] == sorted[offset + j];
    }
    forall p | p in r ensures p in m {
      assert p in multiset(r);
    }
    assert |sorted| == |m| by {
      assert |multiset(sorted)| == |multiset(m)|;
    }
  }

  /** `query?.limit || 50`: an absent (or zero) limit is 50. */
  function LimitOrDefault(q: ListQuery): (n: int)
    ensures ValidListQuery(q) ==> n >= 1
    ensures q.limit.None? ==> n == 50
    ensures ValidListQuery(q) && q.limit.Some? ==> n == q.limit.value
  {
    if q.limit.Some? && q.limit.value != 0 then q.limit.value else 50
  }

  /** `query?.offset || 0`: an absent offset is 0. */
  function OffsetOrDefault(q: ListQuery): (n: int)
    ensures ValidListQuery(q) ==> n >= 0
    ensures q.offset.None? ==> n == 0
    ensures ValidListQuery(q) && q.offset.Some? ==> n == q.offset.value
  {
    if q.offset.Some? && q.offset.value != 0 then q.offset.value else 0
  }

  /** The rows matching every filter of the query. */
  function Matching(rows: seq<Practice>, q: ListQuery): seq<Practice> {
    Selected(rows, q.strokeType, q.dateFrom, q.dateTo)
  }

  /**
   * What a listing returns: the window [offset, offset + limit) of the matching rows sorted
   * most recent first. Every returned record is a stored row that meets every filter given;
   * the records come most recent first; and there are min(limit, max(0, matches - offset)).
   */
  function Listing(rows: seq<Practice>, q: ListQuery): (r: seq<Practice>)
    requires ValidListQuery(q)
    ensures forall p :: p in r ==>
      && p in rows
      && (q.strokeType.Some? ==> p.mainStroke == q.strokeType.value)
      && (q.dateFrom.Some? ==> p.date >= q.dateFrom.value)
      && (q.dateTo.Some? ==> p.date <= q.dateTo.value)
    ensures DateDescending(r)
    ensures |r| == Min(LimitOrDefault(q), Max(0, |Matching(rows, q)| - OffsetOrDefault(q)))
    ensures multiset(r) <= multiset(Matching(rows, q))
    ensures OffsetOrDefault(q) == 0 && |Matching(rows, q)| <= LimitOrDefault(q) ==>
      multiset(r) == multiset(Matching(rows, q))
  {
    var m := Matching(rows, q);
    var sorted := SortByDateDesc(m);
    var r := Page(sorted, OffsetOrDefault(q), LimitOrDefault(q));
    PageOfOrdering(m, sorted, OffsetOrDefault(q), LimitOrDefault(q));
    r
  }

  /** Builds the conditions one filter at a time, then selects, orders and pages the rows. */
  method GetSwimmingPractices(rows: seq<Practice>, q: ListQuery) returns (result: seq<Practice>)
    requires ValidListQuery(q)
    ensures result == Listing(rows, q)
  {
    var conds := BuildConditions(q.strokeType, q.dateFrom, q.dateTo);
    var limit := LimitOrDefault(q);
    var offset := OffsetOrDefault(q);
    var matching := Where(rows, conds);
    WhereIsSelected(rows, conds, q.strokeType, q.dateFrom, q.dateTo);
    result := Page(SortByDateDesc(matching), offset, limit);
  }

  /** When no row matches the filters (an empty table, say), the listing is empty. */
  lemma NothingMatchesEmptyListing(rows: seq<Practice>, q: ListQuery)
    requires ValidListQuery(q)
    requires forall p :: p in rows ==> !Matches(q.strokeType, q.dateFrom, q.dateTo, p)
    ensures Listing(rows, q) == []
  {
    NoneSelected(rows, q.strokeType, q.dateFrom, q.dateTo);
    assert SortByDateDesc(Matching(rows, q)) == [];
  }

  /** Rows none of which matches the filters select nothing. */
  lemma {:induction false} NoneSelected(
    rows: seq<Practice>, stroke: Option<Stroke>, from: Option<Date>, to: Option<Date>)
    requires forall p :: p in rows ==> !Matches(stroke, from, to, p)
    ensures Selected(rows, stroke, from, to) == []
  {
    if rows != [] {
      assert rows[0] in rows;
      NoneSelected(rows[1..], stroke, from, to);
    }
  }

  /**
   * Over rows with distinct dates, two pages of the same filters whose windows do not overlap
   * share no record: the page at offset 2 is disjoint from the first two records.
   */
  lemma PagesDisjoint(rows: seq<Practice>, q1: ListQuery, q2: ListQuery)
    requires ValidListQuery(q1) && ValidListQuery(q2)
    requires q1.strokeType == q2.strokeType && q1.dateFrom == q2.dateFrom && q1.dateTo == q2.dateTo
    requires OffsetOrDefault(q1) + LimitOrDefault(q1) <= OffsetOrDefault(q2)
    requires DatesDistinct(rows)
    ensures forall p :: p in Listing(rows, q1) ==> p !in Listing(rows, q2)
  {
    var m := Matching(rows, q1);
    SelectedKeepsDatesDistinct(rows, q1.strokeType, q1.dateFrom, q1.dateTo);
    SortKeepsDatesDistinct(m);
    var sorted := SortByDateDesc(m);
    var o1, l1, o2, l2 := OffsetOrDefault(q1), LimitOrDefault(q1), OffsetOrDefault(q2), LimitOrDefault(q2);
    assert Listing(rows, q1) == Page(sorted, o1, l1) && Listing(rows, q2) == Page(sorted, o2, l2);
    WindowsDisjoint(sorted, o1, l1, o2, l2);
  }

  /** In a sequence with distinct dates, windows that do not overlap share no record. */
  lemma WindowsDisjoint(s: seq<Practice>, o1: nat, l1: nat, o2: nat, l2: nat)
    requires DatesDistinct(s) && o1 + l1 <= o2
    ensures forall p :: p in Page(s, o1, l1) ==> p !in Page(s, o2, l2)
  {
    var page1, page2 := Page(s, o1, l1), Page(s, o2, l2);
    forall p | p in page1 ensures p !in page2 {
      var i :| 0 <= i < |page1| && page1[i] == p;
    }
  }

  /** Practices on the 1st and the 2nd, listed with no query: the 2nd comes first. */
  lemma MostRecentFirstScenario(p1: Practice, p2: Practice)
    requires p1.date == 1 && p2.date == 2
    ensures Listing([p1, p2], ListQuery(None, None, None, None, None)) == [p2, p1]
  {
    var rows := [p1, p2];
    var q := ListQuery(None, None, None, None, None);
    assert rows[1..] == [p2] && rows[1..][1..] == [];
    assert Selected([p2], None, None, None) == [p2];
    assert Matching(rows, q) == rows;
    assert SortByDateDesc([p2]) == [p2];
    assert SortByDateDesc(rows) == [p2, p1];
  }
}
