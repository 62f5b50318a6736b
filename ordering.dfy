/**
 * `ORDER BY score DESC, created_at DESC`: every ordered read of `events` is a sorted
 * permutation of the rows its `WHERE` clause selects.
 */
module Ordering {
  import opened Records

  /** `a` may be listed before `b`: higher score first, then the later insertion. */
  predicate Before(a: Event, b: Event)
  {
    a.score > b.score || (a.score == b.score && a.createdAt >= b.createdAt)
  }

  /** The rows are listed by score descending, then by creation time descending. */
  predicate Ordered(s: seq<Event>)
  {
    forall i, j :: 0 <= i < j < |s| ==> Before(s[i], s[j])
  }

  /** An ordered listing stays ordered when a row that may precede all of it is put first. */
  lemma PrependOrdered(a: Event, s: seq<Event>)
    requires Ordered(s)
    requires forall y :: y in s ==> Before(a, y)
    ensures Ordered([a] + s)
  {
    var r := [a] + s;
    forall i, j | 0 <= i < j < |r| ensures Before(r[i], r[j]) {
      assert r[j] == s[j - 1];
      if i > 0 {
        assert r[i] == s[i - 1];
      }
    }
  }

  /** Puts `x` into an ordered listing, after every row that may stand before it. */
  function Insert(x: Event, s: seq<Event>): (r: seq<Event>)
    requires Ordered(s)
    ensures Ordered(r)
    ensures multiset(r) == multiset(s) + multiset{x}
  {
    if s == [] then [x]
    else if Before(x, s[0]) then
      assert forall y :: y in s ==> Before(x, y) by {
        forall y | y in s ensures Before(x, y) {
          var j :| 0 <= j < |s| && s[j] == y;
          assert j == 0 || Before(s[0], s[j]);
        }
      }
      PrependOrdered(x, s);
      [x] + s
    else
      var tail := s[1..];
      var rest := Insert(x, tail);
      assert s == [s[0]] + tail;
      assert forall y :: y in tail ==> Before(s[0], y) by {
        forall y | y in tail ensures Before(s[0], y) {
          var k :| 0 <= k < |tail| && tail[k] == y;
          assert s[k + 1] == y;
        }
      }
      assert forall y :: y in rest ==> Before(s[0], y) by {
        forall y | y in rest ensures Before(s[0], y) {
          assert y in multiset(rest);
          assert y == x || y in multiset(tail);
        }
      }
      PrependOrdered(s[0], rest);
      [s[0]] + rest
  }

  /** The rows of `s` in `ORDER BY score DESC, created_at DESC` order. */
  function Sort(s: seq<Event>): (r: seq<Event>)
    ensures Ordered(r)
    ensures multiset(r) == multiset(s)
    ensures |r| == |s|
  {
    if s == [] then []
    else
      assert s == [s[0]] + s[1..];
      assert multiset(s) == multiset(s[1..]) + multiset{s[0]};
      Insert(s[0], Sort(s[1..]))
  }
}
