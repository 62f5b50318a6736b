/**
 * The SQLite store `FDataBase`: the `events`, `admins`, `users` and registration tables,
 * the reads the handlers issue (as functions of the table contents) and the writes (as
 * methods of the class that owns the tables).
 */
module Database {
  import opened Wrappers
  import opened Strings
  import opened Records
  import opened Ordering

  // ================================================================ sequences of rows

  /** The rows of `s` that satisfy `p`, in table order (`WHERE p`). */
  function Filter<T(==,!new)>(s: seq<T>, p: T -> bool): (r: seq<T>)
    ensures |r| <= |s|
    ensures forall i :: 0 <= i < |r| ==> p(r[i])
    ensures forall x :: x in r <==> x in s && p(x)
  {
    if s == [] then []
    else
      assert s == [s[0]] + s[1..];
      var rest := Filter(s[1..], p);
      if p(s[0]) then [s[0]] + rest else rest
  }

  /** Each qualifying row is selected as often as it occurs, and no other row is. */
  lemma {:induction false} FilterMultiset<T(!new)>(s: seq<T>, p: T -> bool)
    ensures forall x :: multiset(Filter(s, p))[x] == if p(x) then multiset(s)[x] else 0
  {
    if s != [] {
      assert s == [s[0]] + s[1..];
      FilterMultiset(s[1..], p);
    }
  }

  /** A `WHERE` clause that every row satisfies selects the whole table, in order. */
  lemma {:induction false} FilterAll<T(!new)>(s: seq<T>, p: T -> bool)
    requires forall i :: 0 <= i < |s| ==> p(s[i])
    ensures Filter(s, p) == s
  {
    if s != [] {
      FilterAll(s[1..], p);
    }
  }

  /** Two `WHERE` clauses that agree on every row select the same rows. */
  lemma {:induction false} FilterSamePredicate<T(!new)>(s: seq<T>, p: T -> bool, q: T -> bool)
    requires forall x :: p(x) == q(x)
    ensures Filter(s, p) == Filter(s, q)
  {
    if s != [] {
      FilterSamePredicate(s[1..], p, q);
    }
  }

  /** No row occurs twice. */
  ghost predicate Distinct<T(!new)>(s: seq<T>)
  {
    forall x :: multiset(s)[x] <= 1
  }

  lemma DistinctAt<T(!new)>(s: seq<T>, i: int, j: int)
    requires Distinct(s)
    requires 0 <= i < j < |s|
    ensures s[i] != s[j]
  {
    assert s == s[..j] + s[j..];
    assert multiset(s) == multiset(s[..j]) + multiset(s[j..]);
    assert s[..j][i] == s[i] && s[j..][0] == s[j];
    assert multiset(s[..j])[s[i]] >= 1 && multiset(s[j..])[s[j]] >= 1;
    assert multiset(s)[s[i]] == multiset(s[..j])[s[i]] + multiset(s[j..])[s[i]];
    assert multiset(s)[s[i]] <= 1;
  }

  /** `LIMIT n` in SQLite: a negative limit means no limit. */
  function Limit<T>(s: seq<T>, limit: int): (r: seq<T>)
    ensures limit < 0 ==> r == s
    ensures limit >= 0 ==> |r| == (if limit < |s| then limit else |s|)
    ensures r == s[..|r|]
  {
    if limit < 0 || limit >= |s| then s else s[..limit]
  }

  /** `OFFSET k` in SQLite: a negative offset counts as zero. */
  function Offset<T>(s: seq<T>, offset: int): seq<T>
  {
    if offset <= 0 then s else if offset >= |s| then [] else s[offset..]
  }

  function Min(a: int, b: int): int
  {
    if a < b then a else b
  }

  /** `x` cut into the range `[0, n]`: a position in a table of `n` rows. */
  function Clamp(x: int, n: nat): (r: nat)
    ensures r <= n
    ensures 0 <= x <= n ==> r == x
  {
    if x < 0 then 0 else if x > n then n else x
  }

  /**
   * `ORDER BY score DESC, created_at DESC LIMIT limit` over the rows `rows`: a sorted
   * selection of them that is all of them when the limit does not bite, and otherwise
   * the first `limit` rows of the order.
   */
  function TopRows(rows: seq<Event>, limit: int): (r: seq<Event>)
    ensures Ordered(r)
    ensures forall e :: e in r ==> e in rows
    ensures limit >= 0 ==> |r| == Min(limit, |rows|)
    ensures limit < 0 || |rows| <= limit ==> multiset(r) == multiset(rows)
    ensures limit < 0 ==> forall e :: e in rows ==> e in r
    ensures forall i, e :: 0 <= i < |r| && e in rows && e !in r ==> Before(r[i], e)
  {
    var sorted := Sort(rows);
    var r := Limit(sorted, limit);
    SortedPrefix(sorted, rows, |r|);
    r
  }

  /** A prefix of a sorted permutation of `rows`: ordered, drawn from `rows`, and their best. */
  lemma SortedPrefix(sorted: seq<Event>, rows: seq<Event>, n: nat)
    requires Ordered(sorted) && multiset(sorted) == multiset(rows)
    requires n <= |sorted|
    ensures Ordered(sorted[..n])
    ensures forall e :: e in sorted[..n] ==> e in rows
    ensures forall i, e :: 0 <= i < n && e in rows && e !in sorted[..n] ==> Before(sorted[..n][i], e)
    ensures n == |sorted| ==> forall e :: e in rows ==> e in sorted[..n]
  {
    var r := sorted[..n];
    if n == |sorted| {
      assert r == sorted;
      forall e | e in rows ensures e in r {
        assert e in multiset(rows);
      }
    }
    forall i, j | 0 <= i < j < |r| ensures Before(r[i], r[j]) {
      assert r[i] == sorted[i] && r[j] == sorted[j];
    }
    forall e | e in r ensures e in rows {
      assert e in multiset(sorted);
    }
    forall i, e | 0 <= i < n && e in rows && e !in r ensures Before(r[i], e) {
      assert e in multiset(sorted);
      var k :| 0 <= k < |sorted| && sorted[k] == e;
      assert forall m :: 0 <= m < n ==> r[m] == sorted[m];
      assert k >= n;
      assert r[i] == sorted[i];
    }
  }

  // ================================================================ events

  /** The two URLs that manual and file-uploaded events share; they skip the duplicate check. */
  predicate IsSentinelUrl(url: string)
  {
    url == "invite" || url == "file_upload"
  }

  /** Some row already has this URL. */
  predicate UrlTaken(events: seq<Event>, url: string)
  {
    exists e :: e in events && e.url == url
  }

  /** `add_event` stores a row with this URL: a sentinel URL, or one not yet in the table. */
  predicate AcceptsUrl(events: seq<Event>, url: string)
  {
    IsSentinelUrl(url) || !UrlTaken(events, url)
  }

  /** Event ids increase in table order (an auto-increment key). */
  ghost predicate IdsIncreasing(events: seq<Event>)
  {
    forall i, j :: 0 <= i < j < |events| ==> events[i].id < events[j].id
  }

  /** The rows after the first of an id-increasing table are id-increasing and have larger ids. */
  lemma TailIncreasing(events: seq<Event>)
    requires IdsIncreasing(events)
    requires events != []
    ensures IdsIncreasing(events[1..])
    ensures forall y :: y in events[1..] ==> events[0].id < y.id
  {
    var tail := events[1..];
    forall i, j | 0 <= i < j < |tail| ensures tail[i].id < tail[j].id {
      assert tail[i] == events[i + 1] && tail[j] == events[j + 1];
    }
    forall y | y in tail ensures events[0].id < y.id {
      var k :| 0 <= k < |tail| && tail[k] == y;
      assert tail[k] == events[k + 1];
    }
  }

  lemma PrependIncreasing(a: Event, s: seq<Event>)
    requires IdsIncreasing(s)
    requires forall y :: y in s ==> a.id < y.id
    ensures IdsIncreasing([a] + s)
  {
    var r := [a] + s;
    forall i, j | 0 <= i < j < |r| ensures r[i].id < r[j].id {
      assert r[j] == s[j - 1];
      if i > 0 {
        assert r[i] == s[i - 1];
      }
    }
  }

  lemma {:induction false} IncreasingDistinct(events: seq<Event>)
    requires IdsIncreasing(events)
    ensures Distinct(events)
  {
    if events != [] {
      var tail := events[1..];
      TailIncreasing(events);
      IncreasingDistinct(tail);
      assert events == [events[0]] + tail;
      assert multiset(events) == multiset{events[0]} + multiset(tail);
      assert events[0] !in multiset(tail);
    }
  }

  lemma {:induction false} FilterIncreasing(events: seq<Event>, p: Event -> bool)
    requires IdsIncreasing(events)
    ensures IdsIncreasing(Filter(events, p))
  {
    if events != [] {
      var tail := events[1..];
      TailIncreasing(events);
      FilterIncreasing(tail, p);
      var rest := Filter(tail, p);
      if p(events[0]) {
        PrependIncreasing(events[0], rest);
      }
    }
  }

  /** Two rows of an id-increasing table with the same id are the same row. */
  lemma SameIdSameRow(events: seq<Event>, a: Event, b: Event)
    requires IdsIncreasing(events)
    requires a in events && b in events && a.id == b.id
    ensures a == b
  {
    var k :| 0 <= k < |events| && events[k] == a;
    var j :| 0 <= j < |events| && events[j] == b;
    assert forall u, v :: 0 <= u < |events| && 0 <= v < |events| && u != v ==> events[u].id != events[v].id by {
      forall u, v | 0 <= u < |events| && 0 <= v < |events| && u != v ensures events[u].id != events[v].id {
        if u < v {
          assert events[u].id < events[v].id;
        } else {
          assert events[v].id < events[u].id;
        }
      }
    }
    assert j == k;
  }

  /** `SELECT * FROM events WHERE id = ?` then `fetchone()`: the first row with that id. */
  function GetEventById(events: seq<Event>, id: int): (r: Option<Event>)
    ensures r.Some? ==> r.value in events && r.value.id == id
    ensures r.None? <==> forall e :: e in events ==> e.id != id
  {
    if events == [] then None
    else if events[0].id == id then Some(events[0])
    else
      assert events == [events[0]] + events[1..];
      GetEventById(events[1..], id)
  }

  /** In a table with increasing ids, the row with a given id is the only one with it. */
  lemma GetEventByIdUnique(events: seq<Event>, e: Event)
    requires IdsIncreasing(events)
    requires e in events
    ensures GetEventById(events, e.id) == Some(e)
  {
    var r := GetEventById(events, e.id);
    SameIdSameRow(events, e, r.value);
  }

  function IsApproved(e: Event): bool
  {
    e.status == Approved
  }

  function IsPendingRelated(e: Event): bool
  {
    e.status == Pending && e.isItRelated == Some(1)
  }

  /**
   * `get_pending_events`: exactly the rows with status 'pending' and `is_it_related = 1`,
   * ordered by score descending, then creation time descending.
   */
  function GetPendingEvents(events: seq<Event>): (r: seq<Event>)
    ensures Ordered(r)
    ensures forall e :: e in r <==> e in events && e.status == Pending && e.isItRelated == Some(1)
    ensures multiset(r) == multiset(Filter(events, IsPendingRelated))
  {
    TopRows(Filter(events, IsPendingRelated), -1)
  }

  /**
   * The approved rows in the order every approved-event listing uses. That this is a
   * permutation of the approved rows in `ORDER BY score DESC, created_at DESC` order is
   * `ApprovedOrderSorted`, kept apart so that slicing the sequence stays cheap to reason about.
   */
  function ApprovedOrder(events: seq<Event>): (r: seq<Event>)
    ensures forall e :: e in r <==> e in events && e.status == Approved
  {
    TopRows(Filter(events, IsApproved), -1)
  }

  lemma ApprovedOrderSorted(events: seq<Event>)
    ensures Ordered(ApprovedOrder(events))
    ensures multiset(ApprovedOrder(events)) == multiset(Filter(events, IsApproved))
    ensures |ApprovedOrder(events)| == |Filter(events, IsApproved)|
  {
    var r := ApprovedOrder(events);
    assert |r| == |multiset(r)|;
  }

  /** With distinct row ids the approved order lists no row twice. */
  lemma ApprovedOrderDistinct(events: seq<Event>)
    requires IdsIncreasing(events)
    ensures Distinct(ApprovedOrder(events))
  {
    FilterIncreasing(events, IsApproved);
    IncreasingDistinct(Filter(events, IsApproved));
    ApprovedOrderSorted(events);
  }

  /** `get_approved_events(limit=100)`: the first `limit` approved rows of that order. */
  function GetApprovedEvents(events: seq<Event>, limit: int := 100): (r: seq<Event>)
    ensures limit >= 0 ==> |r| == Min(limit, |ApprovedOrder(events)|)
    ensures |r| <= |ApprovedOrder(events)|
    ensures forall e :: e in r ==> e in events && e.status == Approved
    ensures r == ApprovedOrder(events)[..|r|]
    ensures limit < 0 || |ApprovedOrder(events)| <= limit ==> r == ApprovedOrder(events)
  {
    Limit(ApprovedOrder(events), limit)
  }

  /** `get_total_approved_events`: how many rows have status 'approved'. */
  function GetTotalApprovedEvents(events: seq<Event>): (n: nat)
    ensures n == |ApprovedOrder(events)|
  {
    ApprovedOrderSorted(events);
    |Filter(events, IsApproved)|
  }


  /** `LIMIT limit OFFSET offset` is the slice `[offset, offset + limit)`, cut at the end. */
  lemma LimitOffsetSlice<T>(s: seq<T>, offset: int, limit: int)
    requires offset >= 0 && limit >= 0
    ensures Limit(Offset(s, offset), limit) == s[Clamp(offset, |s|)..Clamp(offset + limit, |s|)]
  {
  }

  /** `a * b` for a non-negative `a`, by repeated addition (keeps the proofs linear). */
  function Times(a: nat, b: int): int
  {
    if a == 0 then 0 else Times(a - 1, b) + b
  }

  lemma {:induction false} TimesIsProduct(a: nat, b: int)
    ensures Times(a, b) == a * b
  {
    if a > 0 {
      TimesIsProduct(a - 1, b);
      assert (a - 1) * b + b == a * b;
    }
  }

  /** The first row of page `page` when pages hold `limit` rows: the offset `page * limit`. */
  function PageStart(page: int, limit: int): (r: int)
  {
    if page >= 0 then Times(page, limit) else -Times(-page, limit)
  }

  /** The offset the handlers pass is the product `page * limit`. */
  lemma PageStartIsProduct(page: int, limit: int)
    ensures PageStart(page, limit) == page * limit
  {
    if page >= 0 {
      TimesIsProduct(page, limit);
    } else {
      TimesIsProduct(-page, limit);
      assert -((-page) * limit) == page * limit;
    }
  }

  lemma {:induction false} PageStartNonNegative(page: int, limit: int)
    requires page >= 0 && limit >= 0
    ensures PageStart(page, limit) >= 0
    decreases page
  {
    if page > 0 {
      PageStartNonNegative(page - 1, limit);
    }
  }

  lemma PageStartStep(page: int, limit: int)
    ensures PageStart(page + 1, limit) == PageStart(page, limit) + limit
  {
  }

  /** A later page starts no earlier than the end of an earlier one. */
  lemma {:induction false} PageStartMonotone(p: int, q: int, limit: int)
    requires p < q && limit >= 0
    ensures PageStart(p, limit) + limit <= PageStart(q, limit)
    decreases q - p
  {
    PageStartStep(p, limit);
    if p + 1 < q {
      PageStartMonotone(p + 1, q, limit);
    }
  }

  /** Page `page` of `s` with `limit` rows per page: `LIMIT limit OFFSET page*limit`. */
  function Page<T>(s: seq<T>, page: int, limit: int): (r: seq<T>)
    ensures limit >= 0 ==> |r| <= limit
    ensures page >= 0 && limit >= 0 ==>
      r == s[Clamp(PageStart(page, limit), |s|)..Clamp(PageStart(page, limit) + limit, |s|)]
  {
    var offset := PageStart(page, limit);
    assert page >= 0 && limit >= 0 ==>
      Limit(Offset(s, offset), limit) == s[Clamp(offset, |s|)..Clamp(offset + limit, |s|)] by {
      if page >= 0 && limit >= 0 {
        PageStartNonNegative(page, limit);
        LimitOffsetSlice(s, offset, limit);
      }
    }
    Limit(Offset(s, offset), limit)
  }

  /** Two consecutive pages together are the slice that spans both: nothing is skipped. */
  lemma ConsecutivePagesOf<T>(s: seq<T>, page: nat, limit: nat)
    ensures Page(s, page, limit) + Page(s, page + 1, limit)
      == s[Clamp(PageStart(page, limit), |s|)..Clamp(PageStart(page, limit) + 2 * limit, |s|)]
  {
    var start := PageStart(page, limit);
    PageStartStep(page, limit);
    PageStartNonNegative(page, limit);
    var a, b, c := Clamp(start, |s|), Clamp(start + limit, |s|), Clamp(start + 2 * limit, |s|);
    assert Page(s, page, limit) == s[a..b];
    assert Page(s, page + 1, limit) == s[b..c];
    assert s[a..b] + s[b..c] == s[a..c];
  }

  /** Different pages of a sequence without repeats share no element. */
  lemma PagesDisjointOf<T(!new)>(s: seq<T>, p: nat, q: nat, limit: nat, x: T)
    requires Distinct(s)
    requires p < q
    requires x in Page(s, p, limit)
    ensures x !in Page(s, q, limit)
  {
    var n := |s|;
    var ps, qs := PageStart(p, limit), PageStart(q, limit);
    var a, b, c, d := Clamp(ps, n), Clamp(ps + limit, n), Clamp(qs, n), Clamp(qs + limit, n);
    assert Page(s, p, limit) == s[a..b] && b <= c && c <= d && Page(s, q, limit) == s[c..d] by {
      PageStartNonNegative(p, limit);
      PageStartMonotone(p, q, limit);
    }
    DistinctSlicesApart(s, a, b, c, d, x);
  }

  /** In a sequence without repeats, an element of one slice is in no later slice. */
  lemma DistinctSlicesApart<T(!new)>(s: seq<T>, a: int, b: int, c: int, d: int, x: T)
    requires Distinct(s)
    requires 0 <= a <= b <= c <= d <= |s|
    requires x in s[a..b]
    ensures x !in s[c..d]
  {
    var k1 :| a <= k1 < b && s[k1] == x;
    forall k2 | c <= k2 < d ensures s[k2] != x {
      DistinctAt(s, k1, k2);
    }
  }

  /** A page holds elements exactly when it starts before the end. */
  lemma PageNonEmptyOf<T>(s: seq<T>, page: nat, limit: nat)
    requires limit > 0
    ensures Page(s, page, limit) != [] <==> PageStart(page, limit) < |s|
  {
    PageStartNonNegative(page, limit);
  }

  /** Element `i` of `s` is on page `i / limit`, the page whose slice starts at or before it. */
  lemma RowOnItsPage<T>(s: seq<T>, i: nat, limit: nat)
    requires i < |s| && limit > 0
    ensures s[i] in Page(s, i / limit, limit)
  {
    var p := i / limit;
    PageStartIsProduct(p, limit);
    PageStartNonNegative(p, limit);
    var a := PageStart(p, limit);
    assert a <= i < a + limit;
    var page := Page(s, p, limit);
    assert page == s[a..Clamp(a + limit, |s|)];
    assert page[i - a] == s[i];
  }

  /**
   * `get_events_paginated(page, limit)`: `LIMIT limit OFFSET page*limit` over the approved
   * order, that is the slice `[page*limit, page*limit + limit)` of it.
   */
  function GetEventsPaginated(events: seq<Event>, page: int := 0, limit: int := 5): (r: seq<Event>)
    ensures limit >= 0 ==> |r| <= limit
    ensures page >= 0 && limit >= 0 ==>
      var all := ApprovedOrder(events);
      r == all[Clamp(PageStart(page, limit), |all|)..Clamp(PageStart(page, limit) + limit, |all|)]
  {
    Page(ApprovedOrder(events), page, limit)
  }

  /** Two consecutive pages of approved events together are the slice spanning both. */
  lemma ConsecutivePages(events: seq<Event>, page: nat, limit: nat)
    ensures var all := ApprovedOrder(events);
      GetEventsPaginated(events, page, limit) + GetEventsPaginated(events, page + 1, limit)
        == all[Clamp(PageStart(page, limit), |all|)..Clamp(PageStart(page, limit) + 2 * limit, |all|)]
  {
    ConsecutivePagesOf(ApprovedOrder(events), page, limit);
  }

  /** Different pages of approved events share no row. */
  lemma PagesDisjoint(events: seq<Event>, p: nat, q: nat, limit: nat, e: Event)
    requires IdsIncreasing(events)
    requires p < q
    requires e in GetEventsPaginated(events, p, limit)
    ensures e !in GetEventsPaginated(events, q, limit)
  {
    ApprovedOrderDistinct(events);
    PagesDisjointOf(ApprovedOrder(events), p, q, limit, e);
  }

  /** A page of approved events holds rows exactly when it starts before their count. */
  lemma PageNonEmpty(events: seq<Event>, page: nat, limit: nat)
    requires limit > 0
    ensures GetEventsPaginated(events, page, limit) != [] <==> PageStart(page, limit) < GetTotalApprovedEvents(events)
  {
    PageNonEmptyOf(ApprovedOrder(events), page, limit);
  }

  /** `title LIKE '%k%' OR description LIKE '%k%' OR ai_analysis LIKE '%k%'`. */
  predicate MatchesKeyword(e: Event, k: string)
  {
    LikeContains(e.title, k) || LikeContains(e.description, k) || LikeContains(e.aiAnalysis, k)
  }

  function ApprovedMatching(query: string): Event -> bool
  {
    (e: Event) => e.status == Approved && MatchesKeyword(e, query)
  }

  /**
   * The rows satisfying `p`, by score descending, at most `limit` of them (all when the
   * limit is negative), and the best-scored ones when the limit bites.
   */
  function BestMatches(events: seq<Event>, p: Event -> bool, limit: int): (r: seq<Event>)
    ensures forall e :: e in r ==> e in events && p(e)
    ensures forall i, j :: 0 <= i < j < |r| ==> r[i].score >= r[j].score
    ensures limit >= 0 ==> |r| == Min(limit, |Filter(events, p)|)
    ensures Ordered(r)
    ensures forall e, i :: e in events && p(e) && e !in r && 0 <= i < |r| ==> r[i].score >= e.score
    ensures limit < 0 || |Filter(events, p)| <= limit ==> multiset(r) == multiset(Filter(events, p))
    ensures limit < 0 ==> forall e :: e in events && p(e) ==> e in r
  {
    var rows := Filter(events, p);
    TopRows(rows, limit)
  }

  /**
   * `search_events(query, limit=10)`: approved rows matching the query, by score
   * descending, at most `limit` of them and the best-scored ones when the limit bites.
   */
  function SearchEvents(events: seq<Event>, query: string, limit: int := 10): (r: seq<Event>)
    ensures forall e :: e in r ==> e in events && e.status == Approved && MatchesKeyword(e, query)
    ensures forall i, j :: 0 <= i < j < |r| ==> r[i].score >= r[j].score
    ensures limit >= 0 ==> |r| == Min(limit, |Filter(events, ApprovedMatching(query))|)
    ensures limit < 0 || |Filter(events, ApprovedMatching(query))| <= limit ==>
              multiset(r) == multiset(Filter(events, ApprovedMatching(query)))
    ensures forall e, i :: e in events && e.status == Approved && MatchesKeyword(e, query) && e !in r && 0 <= i < |r|
              ==> r[i].score >= e.score
    ensures limit < 0 ==> forall e :: e in events && e.status == Approved && MatchesKeyword(e, query) ==> e in r
  {
    BestMatches(events, ApprovedMatching(query), limit)
  }

  predicate MatchesAnyKeyword(e: Event, keywords: seq<string>)
  {
    exists k :: k in keywords && MatchesKeyword(e, k)
  }

  function ApprovedMatchingAny(keywords: seq<string>): Event -> bool
  {
    (e: Event) => e.status == Approved && MatchesAnyKeyword(e, keywords)
  }

  /**
   * `search_events_by_keywords(keywords, limit=10)`: approved rows matching at least one
   * keyword (OR semantics), by score descending, at most `limit`. With no keywords the
   * generated `WHERE ()` is a syntax error, which the method turns into an empty result.
   */
  function SearchEventsByKeywords(events: seq<Event>, keywords: seq<string>, limit: int := 10): (r: seq<Event>)
    ensures keywords == [] ==> r == []
    ensures forall e :: e in r ==> e in events && e.status == Approved && MatchesAnyKeyword(e, keywords)
    ensures forall i, j :: 0 <= i < j < |r| ==> r[i].score >= r[j].score
    ensures limit >= 0 ==> |r| <= limit
    ensures keywords != [] && limit >= 0 ==> |r| == Min(limit, |Filter(events, ApprovedMatchingAny(keywords))|)
    ensures keywords != [] && (limit < 0 || |Filter(events, ApprovedMatchingAny(keywords))| <= limit) ==>
              multiset(r) == multiset(Filter(events, ApprovedMatchingAny(keywords)))
    ensures keywords != [] ==>
              forall e, i :: (e in events && e.status == Approved && MatchesAnyKeyword(e, keywords)
                              && e !in r && 0 <= i < |r|) ==> r[i].score >= e.score
    ensures keywords != [] && limit < 0 ==>
              forall e :: e in events && e.status == Approved && MatchesAnyKeyword(e, keywords) ==> e in r
  {
    if keywords == [] then [] else BestMatches(events, ApprovedMatchingAny(keywords), limit)
  }

  /** A single keyword finds the same rows as `search_events` with that query. */
  lemma SingleKeywordIsSearch(events: seq<Event>, k: string, limit: int)
    ensures SearchEventsByKeywords(events, [k], limit) == SearchEvents(events, k, limit)
  {
    assert forall e :: ApprovedMatchingAny([k])(e) == ApprovedMatching(k)(e) by {
      forall e ensures ApprovedMatchingAny([k])(e) == ApprovedMatching(k)(e) {
        if MatchesAnyKeyword(e, [k]) {
          var k' :| k' in [k] && MatchesKeyword(e, k');
        }
      }
    }
    FilterSamePredicate(events, ApprovedMatchingAny([k]), ApprovedMatching(k));
  }

  /** `UPDATE events SET status = ? WHERE id = ?`. */
  function WithStatus(events: seq<Event>, id: int, status: EventStatus): (r: seq<Event>)
    ensures |r| == |events|
  {
    seq(|events|, i requires 0 <= i < |events| =>
      if events[i].id == id then events[i].(status := status) else events[i])
  }

  /**
   * After `update_status(id, s)` the row with that id has status `s` whatever it had
   * before, and every other row reads as before; an unknown id changes nothing.
   */
  lemma UpdateStatusEffect(events: seq<Event>, id: int, status: EventStatus, other: int)
    requires IdsIncreasing(events)
    requires other != id
    ensures forall e :: e in events && e.id == id ==>
              GetEventById(WithStatus(events, id, status), id) == Some(e.(status := status))
    ensures GetEventById(WithStatus(events, id, status), other) == GetEventById(events, other)
    ensures GetEventById(events, id).None? ==> WithStatus(events, id, status) == events
  {
    var r := WithStatus(events, id, status);
    assert IdsIncreasing(r) by {
      forall i, j | 0 <= i < j < |r| ensures r[i].id < r[j].id {
        assert r[i].id == events[i].id && r[j].id == events[j].id;
      }
    }
    forall e | e in events && e.id == id
      ensures GetEventById(r, id) == Some(e.(status := status))
    {
      var k :| 0 <= k < |events| && events[k] == e;
      assert r[k] == e.(status := status);
      GetEventByIdUnique(r, r[k]);
    }
    OtherIdsUnchanged(events, id, status, other);
    if GetEventById(events, id).None? {
      assert forall k :: 0 <= k < |events| ==> r[k] == events[k] by {
        forall k | 0 <= k < |events| ensures r[k] == events[k] {
          assert events[k] in events;
        }
      }
    }
  }

  lemma {:induction false} OtherIdsUnchanged(events: seq<Event>, id: int, status: EventStatus, other: int)
    requires other != id
    ensures GetEventById(WithStatus(events, id, status), other) == GetEventById(events, other)
  {
    if events != [] {
      var r := WithStatus(events, id, status);
      assert r[1..] == WithStatus(events[1..], id, status);
      OtherIdsUnchanged(events[1..], id, status, other);
    }
  }

  function IdIsNot(id: int): Event -> bool
  {
    (e: Event) => e.id != id
  }

  /** `delete_event(id)` leaves no row with that id, and every other row is still found. */
  lemma DeleteEventEffect(events: seq<Event>, id: int, other: int)
    requires other != id
    ensures GetEventById(Filter(events, IdIsNot(id)), id).None?
    ensures GetEventById(Filter(events, IdIsNot(id)), other) == GetEventById(events, other)
  {
    DeleteKeepsOthers(events, id, other);
  }

  lemma {:induction false} DeleteKeepsOthers(events: seq<Event>, id: int, other: int)
    requires other != id
    ensures GetEventById(Filter(events, IdIsNot(id)), other) == GetEventById(events, other)
  {
    if events != [] {
      DeleteKeepsOthers(events[1..], id, other);
    }
  }

  /** The first selected row is the first row of the table that qualifies. */
  lemma {:induction false} FilterHead<T(!new)>(s: seq<T>, p: T -> bool)
    requires Filter(s, p) != []
    ensures exists i :: 0 <= i < |s| && s[i] == Filter(s, p)[0] && p(s[i]) && forall j :: 0 <= j < i ==> !p(s[j])
  {
    if p(s[0]) {
      assert s[0] == Filter(s, p)[0];
    } else {
      var t := s[1..];
      FilterHead(t, p);
      var i :| 0 <= i < |t| && t[i] == Filter(t, p)[0] && p(t[i]) && forall j :: 0 <= j < i ==> !p(t[j]);
      assert s[i + 1] == t[i];
      forall j | 0 <= j < i + 1 ensures !p(s[j]) {
        if j > 0 {
          assert s[j] == t[j - 1];
        }
      }
    }
  }

  /** Selecting from a table with a first row: that row, if it qualifies, then the rest. */
  lemma FilterCons<T(!new)>(x: T, s: seq<T>, p: T -> bool)
    ensures Filter([x] + s, p) == if p(x) then [x] + Filter(s, p) else Filter(s, p)
  {
    assert ([x] + s)[1..] == s;
  }

  /** Selecting with two `WHERE` clauses one after the other does not depend on their order. */
  lemma {:induction false} FilterCommute<T(!new)>(s: seq<T>, p: T -> bool, q: T -> bool)
    ensures Filter(Filter(s, p), q) == Filter(Filter(s, q), p)
  {
    if s != [] {
      FilterCommute(s[1..], p, q);
    }
  }

  // ================================================================ the moderation queue

  /** An event still awaiting a moderator's decision: status 'new' or 'pending'. */
  function InModeration(e: Event): bool
  {
    e.status == New || e.status == Pending
  }

  /**
   * The events awaiting moderation, oldest first, that `get_pending_events_paginated` and
   * `get_total_pending_events_count` read.
   */
  function ModerationQueue(events: seq<Event>): (r: seq<Event>)
    ensures forall e :: e in r <==> e in events && (e.status == New || e.status == Pending)
    ensures IdsIncreasing(events) ==> IdsIncreasing(r)
  {
    assert IdsIncreasing(events) ==> IdsIncreasing(Filter(events, InModeration)) by {
      if IdsIncreasing(events) {
        FilterIncreasing(events, InModeration);
      }
    }
    Filter(events, InModeration)
  }

  /** `get_pending_events_paginated(page, limit)`: page `page` of the moderation queue. */
  function GetPendingEventsPaginated(events: seq<Event>, page: int, limit: int): (r: seq<Event>)
    ensures limit >= 0 ==> |r| <= limit
    ensures page >= 0 && limit >= 0 ==>
      var q := ModerationQueue(events);
      r == q[Clamp(PageStart(page, limit), |q|)..Clamp(PageStart(page, limit) + limit, |q|)]
  {
    Page(ModerationQueue(events), page, limit)
  }

  /** `get_total_pending_events_count()`: zero exactly when no event awaits moderation. */
  function GetTotalPendingEventsCount(events: seq<Event>): (n: nat)
    ensures n == |ModerationQueue(events)|
    ensures n <= |events|
    ensures n == 0 <==> forall e :: e in events ==> e.status != New && e.status != Pending
  {
    var q := ModerationQueue(events);
    assert q == [] <==> forall e :: e in events ==> !InModeration(e) by {
      if q != [] {
        assert q[0] in q;
      }
    }
    |q|
  }

  /**
   * Approving or rejecting an event takes it out of the queue and leaves the rest of the
   * queue as it was, in the same order.
   */
  lemma {:induction false} DecisionLeavesQueue(events: seq<Event>, id: int, status: EventStatus)
    requires status == Approved || status == Rejected
    ensures ModerationQueue(WithStatus(events, id, status)) == Filter(ModerationQueue(events), IdIsNot(id))
  {
    if events != [] {
      var e := events[0];
      var d := if e.id == id then e.(status := status) else e;
      var tail := WithStatus(events[1..], id, status);
      assert events == [e] + events[1..];
      WithStatusCons(events, id, status);
      DecisionLeavesQueue(events[1..], id, status);
      FilterCons(d, tail, InModeration);
      FilterCons(e, events[1..], InModeration);
      if InModeration(e) {
        FilterCons(e, Filter(events[1..], InModeration), IdIsNot(id));
      }
    }
  }

  lemma WithStatusCons(events: seq<Event>, id: int, status: EventStatus)
    requires events != []
    ensures WithStatus(events, id, status)
      == [if events[0].id == id then events[0].(status := status) else events[0]] + WithStatus(events[1..], id, status)
  {
    var r := WithStatus(events, id, status);
    assert r[1..] == WithStatus(events[1..], id, status);
    assert r == [r[0]] + r[1..];
  }

  /** Deleting an event takes it out of the queue and leaves the rest of it in order. */
  lemma DeletionLeavesQueue(events: seq<Event>, id: int)
    ensures ModerationQueue(Filter(events, IdIsNot(id))) == Filter(ModerationQueue(events), IdIsNot(id))
  {
    FilterCommute(events, IdIsNot(id), InModeration);
  }

  /**
   * `get_all_events_paginated(page, limit)`: page `page` of the whole table in table order
   * (the source of this read is not part of the model, so no ordering is assumed beyond it).
   */
  function GetAllEventsPaginated(events: seq<Event>, page: int, limit: int): (r: seq<Event>)
    ensures limit >= 0 ==> |r| <= limit
    ensures page >= 0 && limit >= 0 ==>
      r == events[Clamp(PageStart(page, limit), |events|)..Clamp(PageStart(page, limit) + limit, |events|)]
  {
    Page(events, page, limit)
  }

  // ================================================================ admins and users

  /** `get_admin(telegram_id)`: the first admin row with that id, or `None`. */
  function GetAdmin(admins: seq<Admin>, telegramId: int): (r: Option<Admin>)
    ensures r.Some? ==> r.value in admins && r.value.telegramId == telegramId
    ensures r.None? <==> forall a :: a in admins ==> a.telegramId != telegramId
  {
    if admins == [] then None
    else if admins[0].telegramId == telegramId then Some(admins[0])
    else
      assert admins == [admins[0]] + admins[1..];
      GetAdmin(admins[1..], telegramId)
  }

  function TelegramIdIsNot(telegramId: int): Admin -> bool
  {
    (a: Admin) => a.telegramId != telegramId
  }

  /** After `remove_admin(t)`, `get_admin(t)` finds nothing and other admins are still found. */
  lemma RemoveAdminEffect(admins: seq<Admin>, t: int, other: int)
    requires other != t
    ensures GetAdmin(Filter(admins, TelegramIdIsNot(t)), t).None?
    ensures GetAdmin(Filter(admins, TelegramIdIsNot(t)), other) == GetAdmin(admins, other)
  {
    RemoveAdminKeepsOthers(admins, t, other);
  }

  lemma {:induction false} RemoveAdminKeepsOthers(admins: seq<Admin>, t: int, other: int)
    requires other != t
    ensures GetAdmin(Filter(admins, TelegramIdIsNot(t)), other) == GetAdmin(admins, other)
  {
    if admins != [] {
      RemoveAdminKeepsOthers(admins[1..], t, other);
    }
  }

  /** `update_admin_role(t, role)`: every admin row of `t` gets the new role. */
  function WithRole(admins: seq<Admin>, telegramId: int, role: string): (r: seq<Admin>)
    ensures |r| == |admins|
  {
    seq(|admins|, i requires 0 <= i < |admins| =>
      if admins[i].telegramId == telegramId then admins[i].(role := role) else admins[i])
  }

  /** `get_user(telegram_id)`: the first user row with that chat id. */
  function GetUser(users: seq<User>, telegramId: int): (r: Option<User>)
    ensures r.Some? ==> r.value in users && r.value.telegramId == telegramId
    ensures r.None? <==> forall u :: u in users ==> u.telegramId != telegramId
  {
    if users == [] then None
    else if users[0].telegramId == telegramId then Some(users[0])
    else
      assert users == [users[0]] + users[1..];
      GetUser(users[1..], telegramId)
  }

  /** `get_user_by_id(id)`: the first user row with that internal id. */
  function GetUserById(users: seq<User>, id: int): (r: Option<User>)
    ensures r.Some? ==> r.value in users && r.value.id == id
    ensures r.None? <==> forall u :: u in users ==> u.id != id
  {
    if users == [] then None
    else if users[0].id == id then Some(users[0])
    else
      assert users == [users[0]] + users[1..];
      GetUserById(users[1..], id)
  }

  // ================================================================ registrations

  predicate IsPair(r: Registration, userId: int, eventId: int)
  {
    r.userId == userId && r.eventId == eventId
  }

  /** A registration row for the pair exists, whatever its status. */
  predicate HasPair(regs: seq<Registration>, userId: int, eventId: int)
  {
    exists r :: r in regs && IsPair(r, userId, eventId)
  }

  /** A pending registration row for the pair exists. */
  predicate HasPendingPair(regs: seq<Registration>, userId: int, eventId: int)
  {
    exists r :: r in regs && IsPair(r, userId, eventId) && r.status == RegPending
  }

  function NotPair(userId: int, eventId: int): Registration -> bool
  {
    (r: Registration) => !IsPair(r, userId, eventId)
  }

  function OfUser(userId: int): Registration -> bool
  {
    (r: Registration) => r.userId == userId
  }

  function IsPendingReg(r: Registration): bool
  {
    r.status == RegPending
  }

  /** `get_user_events(user_id)`: the user's registration rows, oldest first. */
  function GetUserEvents(regs: seq<Registration>, userId: int): (r: seq<Registration>)
    ensures forall x :: x in r <==> x in regs && x.userId == userId
  {
    Filter(regs, OfUser(userId))
  }

  /** `get_pending_registrations()`: every pending registration row, oldest first. */
  function GetPendingRegistrations(regs: seq<Registration>): (r: seq<Registration>)
    ensures forall x :: x in r <==> x in regs && x.status == RegPending
  {
    Filter(regs, IsPendingReg)
  }

  function OfEvent(eventId: int): Registration -> bool
  {
    (r: Registration) => r.eventId == eventId
  }

  /** `get_event_registrations(event_id)`: the event's registration rows, oldest first. */
  function GetEventRegistrations(regs: seq<Registration>, eventId: int): (r: seq<Registration>)
    ensures forall x :: x in r <==> x in regs && x.eventId == eventId
  {
    Filter(regs, OfEvent(eventId))
  }

  /** `approve_registration(u, e)`: the pair's pending rows become approved. */
  function ApprovePair(regs: seq<Registration>, userId: int, eventId: int): (r: seq<Registration>)
    ensures |r| == |regs|
  {
    seq(|regs|, i requires 0 <= i < |regs| =>
      if IsPair(regs[i], userId, eventId) then regs[i].(status := RegApproved) else regs[i])
  }

  /** After approval the pair has no pending row left, and the rows of other pairs are as before. */
  lemma ApprovePairEffect(regs: seq<Registration>, userId: int, eventId: int)
    ensures !HasPendingPair(ApprovePair(regs, userId, eventId), userId, eventId)
    ensures HasPair(ApprovePair(regs, userId, eventId), userId, eventId) == HasPair(regs, userId, eventId)
    ensures forall i :: 0 <= i < |regs| && !IsPair(regs[i], userId, eventId) ==>
              ApprovePair(regs, userId, eventId)[i] == regs[i]
  {
    var r := ApprovePair(regs, userId, eventId);
    if HasPair(regs, userId, eventId) {
      var x :| x in regs && IsPair(x, userId, eventId);
      var k :| 0 <= k < |regs| && regs[k] == x;
      assert r[k] in r && IsPair(r[k], userId, eventId);
    }
    if HasPair(r, userId, eventId) {
      var x :| x in r && IsPair(x, userId, eventId);
      var k :| 0 <= k < |r| && r[k] == x;
      assert regs[k] in regs && IsPair(regs[k], userId, eventId);
    }
  }

  // ================================================================ the store

  class FDataBase {
    var events: seq<Event>
    var admins: seq<Admin>
    var users: seq<User>
    var registrations: seq<Registration>
    var nextEventId: nat

    /** Event ids are auto-increment keys: increasing in table order and below the next one. */
    ghost predicate Valid()
      reads this
    {
      IdsIncreasing(events) && forall e :: e in events ==> e.id < nextEventId
    }

    /** A store whose user table holds `users0` and whose other tables are empty. */
    constructor (users0: seq<User>)
      ensures Valid()
      ensures events == [] && admins == [] && users == users0 && registrations == []
    {
      events, admins, users, registrations := [], [], users0, [];
      nextEventId := 1;
    }

    /**
     * `add_event(...)`: refuses (False, no change) a URL that is already stored unless it is
     * one of the two sentinels; otherwise appends one row with a fresh id and returns True.
     */
    method AddEvent(title: string, description: string, dateStr: string, location: string, url: string,
                    aiAnalysis: string, score: int, isItRelated: int, source: string, createdAt: int,
                    status: EventStatus := Pending)
      returns (ok: bool)
      requires Valid()
      modifies this
      ensures Valid()
      ensures ok <==> AcceptsUrl(old(events), url)
      ensures nextEventId == old(nextEventId) + (if ok then 1 else 0)
      ensures ok ==> events == old(events) + [Event(old(nextEventId), title, description, dateStr, location, url,
                                                     aiAnalysis, score, Some(isItRelated), Some(source), status,
                                                     None, None, "", createdAt)]
      ensures !ok ==> events == old(events)
      ensures admins == old(admins) && users == old(users) && registrations == old(registrations)
    {
      if !IsSentinelUrl(url) && UrlTaken(events, url) {
        return false;
      }
      var row := Event(nextEventId, title, description, dateStr, location, url, aiAnalysis, score,
                       Some(isItRelated), Some(source), status, None, None, "", createdAt);
      events := events + [row];
      nextEventId := nextEventId + 1;
      ok := true;
    }

    /**
     * `add_new_event(...)`, the insert the handlers use: appends one row with a fresh id.
     * The source of this method is not part of the model; no uniqueness rule is assumed.
     */
    method AddNewEvent(row: NewEvent, createdAt: int) returns (ok: bool)
      requires Valid()
      modifies this
      ensures Valid() && ok
      ensures nextEventId == old(nextEventId) + 1
      ensures events == old(events) + [Stored(row, old(nextEventId), createdAt)]
      ensures admins == old(admins) && users == old(users) && registrations == old(registrations)
    {
      events := events + [Stored(row, nextEventId, createdAt)];
      nextEventId := nextEventId + 1;
      ok := true;
    }

    /** `update_status(id, s)`: no check of the previous status; an unknown id changes nothing. */
    method UpdateStatus(id: int, status: EventStatus)
      requires Valid()
      modifies this
      ensures Valid()
      ensures events == WithStatus(old(events), id, status)
      ensures nextEventId == old(nextEventId)
      ensures admins == old(admins) && users == old(users) && registrations == old(registrations)
    {
      events := WithStatus(events, id, status);
      assert forall i :: 0 <= i < |events| ==> events[i].id == old(events)[i].id;
      assert forall e :: e in events ==> e.id < nextEventId by {
        forall e | e in events ensures e.id < nextEventId {
          var k :| 0 <= k < |events| && events[k] == e;
          assert old(events)[k] in old(events);
        }
      }
    }

    /** `delete_event(id)`: removes every row with that id and returns True even if none matched. */
    method DeleteEvent(id: int) returns (ok: bool)
      requires Valid()
      modifies this
      ensures Valid() && ok
      ensures events == Filter(old(events), IdIsNot(id))
      ensures nextEventId == old(nextEventId)
      ensures admins == old(admins) && users == old(users) && registrations == old(registrations)
    {
      FilterIncreasing(events, IdIsNot(id));
      events := Filter(events, IdIsNot(id));
      ok := true;
    }

    /** `add_admin(t, username, role="Admin")`: appends one admin row and returns True. */
    method AddAdmin(telegramId: int, username: string, role: string := "Admin") returns (ok: bool)
      modifies this
      ensures ok
      ensures admins == old(admins) + [Admin(telegramId, username, role)]
      ensures events == old(events) && nextEventId == old(nextEventId)
      ensures users == old(users) && registrations == old(registrations)
    {
      admins := admins + [Admin(telegramId, username, role)];
      ok := true;
    }

    /** `remove_admin(t)`: deletes every admin row of `t`, returns True even if none matched. */
    method RemoveAdmin(telegramId: int) returns (ok: bool)
      modifies this
      ensures ok
      ensures admins == Filter(old(admins), TelegramIdIsNot(telegramId))
      ensures events == old(events) && nextEventId == old(nextEventId)
      ensures users == old(users) && registrations == old(registrations)
    {
      admins := Filter(admins, TelegramIdIsNot(telegramId));
      ok := true;
    }

    /** `update_admin_role(t, role)`; its source is not part of the model. */
    method UpdateAdminRole(telegramId: int, role: string) returns (ok: bool)
      modifies this
      ensures ok
      ensures admins == WithRole(old(admins), telegramId, role)
      ensures events == old(events) && nextEventId == old(nextEventId)
      ensures users == old(users) && registrations == old(registrations)
    {
      admins := WithRole(admins, telegramId, role);
      ok := true;
    }

    /** `add_user_event(u, e)`: a new pending row, refused when the pair already has one. */
    method AddUserEvent(userId: int, eventId: int) returns (ok: bool)
      modifies this
      ensures ok <==> !HasPair(old(registrations), userId, eventId)
      ensures ok ==> registrations == old(registrations) + [Registration(userId, eventId, RegPending)]
      ensures !ok ==> registrations == old(registrations)
      ensures events == old(events) && nextEventId == old(nextEventId)
      ensures admins == old(admins) && users == old(users)
    {
      if HasPair(registrations, userId, eventId) {
        return false;
      }
      registrations := registrations + [Registration(userId, eventId, RegPending)];
      ok := true;
    }

    /** `approve_registration(u, e)`: True and pending becomes approved, or False if nothing was pending. */
    method ApproveRegistration(userId: int, eventId: int) returns (ok: bool)
      modifies this
      ensures ok <==> HasPendingPair(old(registrations), userId, eventId)
      ensures ok ==> registrations == ApprovePair(old(registrations), userId, eventId)
      ensures !ok ==> registrations == old(registrations)
      ensures events == old(events) && nextEventId == old(nextEventId)
      ensures admins == old(admins) && users == old(users)
    {
      ok := HasPendingPair(registrations, userId, eventId);
      if ok {
        registrations := ApprovePair(registrations, userId, eventId);
      }
    }

    /** `reject_registration(u, e)`: True and the pair's rows are deleted, or False if nothing was pending. */
    method RejectRegistration(userId: int, eventId: int) returns (ok: bool)
      modifies this
      ensures ok <==> HasPendingPair(old(registrations), userId, eventId)
      ensures ok ==> registrations == Filter(old(registrations), NotPair(userId, eventId))
      ensures !ok ==> registrations == old(registrations)
      ensures events == old(events) && nextEventId == old(nextEventId)
      ensures admins == old(admins) && users == old(users)
    {
      ok := HasPendingPair(registrations, userId, eventId);
      if ok {
        registrations := Filter(registrations, NotPair(userId, eventId));
      }
    }

    /** `remove_user_event(u, e)`: deletes the pair's rows whatever their status. */
    method RemoveUserEvent(userId: int, eventId: int)
      modifies this
      ensures registrations == Filter(old(registrations), NotPair(userId, eventId))
      ensures events == old(events) && nextEventId == old(nextEventId)
      ensures admins == old(admins) && users == old(users)
    {
      registrations := Filter(registrations, NotPair(userId, eventId));
    }
  }
}
