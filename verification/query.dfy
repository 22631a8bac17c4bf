/**
 * The three listing statements: `listActive`, `listByUser` and `simpleSearch`.
 * Each filters the table, orders the matches newest first and keeps a
 * LIMIT/OFFSET window. SQL does not fix the order of rows with equal
 * `created_at`; the model breaks such ties by the larger id first.
 */
module Query {
  import opened Basics
  import opened Text
  import opened SqlLike
  import opened Trades
  import opened Store

  /** Rows the search statement returns at most. */
  const SearchLimit: nat := 20

  /** `a` is listed before `b`: newer first, then the larger id. */
  predicate Before(a: Trade, b: Trade)
  {
    a.createdAt > b.createdAt || (a.createdAt == b.createdAt && a.id > b.id)
  }

  /** Each row comes strictly before every later one; in particular no row
      appears twice and `created_at` never increases along the sequence. */
  ghost predicate NewestFirst(s: seq<Trade>)
  {
    forall i, j | 0 <= i < j < |s| :: Before(s[i], s[j])
  }

  ghost predicate IdsAscending(s: seq<Trade>)
  {
    forall i, j | 0 <= i < j < |s| :: s[i].id < s[j].id
  }

  /** The rows with ids `lo..hi`, in id order (a full table scan). */
  function Scan(rows: map<int, Trade>, lo: int, hi: int): (r: seq<Trade>)
    requires forall k | k in rows :: rows[k].id == k
    ensures forall x | x in r :: x.id in rows && rows[x.id] == x && lo <= x.id <= hi
    ensures forall k | k in rows && lo <= k <= hi :: rows[k] in r
    ensures IdsAscending(r)
    decreases hi + 1 - lo
  {
    if lo > hi then []
    else
      var rest := Scan(rows, lo + 1, hi);
      if lo in rows then
        assert forall x | x in rest :: rows[lo].id < x.id;
        ConsAscending(rows[lo], rest);
        [rows[lo]] + rest
      else
        rest
  }

  lemma ConsAscending(a: Trade, s: seq<Trade>)
    requires IdsAscending(s)
    requires forall x | x in s :: a.id < x.id
    ensures IdsAscending([a] + s)
  {
    var r := [a] + s;
    forall i, j | 0 <= i < j < |r|
      ensures r[i].id < r[j].id
    {
      assert r[j] == s[j - 1];
      if i > 0 {
        assert r[i] == s[i - 1];
      }
    }
  }

  /** The elements of `s` satisfying `p`, in their original order. */
  function Filter(s: seq<Trade>, p: Trade -> bool): (r: seq<Trade>)
    ensures forall x | x in r :: x in s && p(x)
    ensures forall x | x in s && p(x) :: x in r
    ensures IdsAscending(s) ==> IdsAscending(r)
  {
    if s == [] then []
    else
      var rest := Filter(s[1..], p);
      assert s == [s[0]] + s[1..];
      if p(s[0]) then
        assert IdsAscending(s) ==> IdsAscending([s[0]] + rest) by {
          if IdsAscending(s) {
            forall x | x in rest
              ensures s[0].id < x.id
            {
              var i :| 0 <= i < |s[1..]| && s[1..][i] == x;
              assert s[i + 1] == x;
            }
            ConsAscending(s[0], rest);
          }
        }
        [s[0]] + rest
      else
        rest
  }

  lemma ConsNewestFirst(a: Trade, s: seq<Trade>)
    requires NewestFirst(s)
    requires forall x | x in s :: Before(a, x)
    ensures NewestFirst([a] + s)
  {
    var r := [a] + s;
    forall i, j | 0 <= i < j < |r|
      ensures Before(r[i], r[j])
    {
      assert r[j] == s[j - 1];
      if i > 0 {
        assert r[i] == s[i - 1];
      }
    }
  }

  /** Inserts `x` into an ordered sequence at its place. */
  function InsertOrdered(x: Trade, s: seq<Trade>): (r: seq<Trade>)
    requires NewestFirst(s)
    requires forall y | y in s :: y.id != x.id
    ensures NewestFirst(r)
    ensures multiset(r) == multiset(s) + multiset{x}
  {
    if s == [] || Before(x, s[0]) then
      assert forall y | y in s :: Before(x, y) by {
        forall y | y in s
          ensures Before(x, y)
        {
          var i :| 0 <= i < |s| && s[i] == y;
          assert i == 0 || Before(s[0], s[i]);
        }
      }
      ConsNewestFirst(x, s);
      [x] + s
    else
      assert s == [s[0]] + s[1..];
      var rest := InsertOrdered(x, s[1..]);
      assert forall y | y in rest :: Before(s[0], y) by {
        forall y | y in rest
          ensures Before(s[0], y)
        {
          assert y in multiset(rest);
          if y != x {
            var i :| 0 <= i < |s[1..]| && s[1..][i] == y;
            assert s[i + 1] == y;
          }
        }
      }
      ConsNewestFirst(s[0], rest);
      [s[0]] + rest
  }

  /** `ORDER BY created_at DESC` (ties: larger id first) by insertion sort. */
  function SortNewestFirst(s: seq<Trade>): (r: seq<Trade>)
    requires IdsAscending(s)
    ensures NewestFirst(r)
    ensures multiset(r) == multiset(s)
  {
    if s == [] then []
    else
      assert s == [s[0]] + s[1..];
      var rest := SortNewestFirst(s[1..]);
      assert forall y | y in rest :: y.id != s[0].id by {
        forall y | y in rest
          ensures y.id != s[0].id
        {
          assert y in multiset(rest);
          var i :| 0 <= i < |s[1..]| && s[1..][i] == y;
          assert s[i + 1] == y;
        }
      }
      InsertOrdered(s[0], rest)
  }

  /** Every row of the table satisfying `p`, newest first: the full result
      the LIMIT/OFFSET window is taken from. */
  function AllMatches(t: Table, p: Trade -> bool): (r: seq<Trade>)
    requires Valid(t)
    ensures NewestFirst(r)
    ensures forall x | x in r :: x.id in t.rows && t.rows[x.id] == x && p(x)
    ensures forall k | k in t.rows && p(t.rows[k]) :: t.rows[k] in r
  {
    var matches := Filter(Scan(t.rows, 1, t.lastId), p);
    var r := SortNewestFirst(matches);
    assert forall x | x in r :: x in matches by {
      forall x | x in r ensures x in matches {
        assert x in multiset(r);
      }
    }
    assert forall x | x in matches :: x in r by {
      forall x | x in matches ensures x in r {
        assert x in multiset(matches);
      }
    }
    r
  }

  /** `y` would be listed after every row of `r`. */
  ghost predicate OlderThanAll(y: Trade, r: seq<Trade>)
  {
    forall x | x in r :: Before(x, y)
  }

  /** `y` would be listed before every row of `r`. */
  ghost predicate NewerThanAll(y: Trade, r: seq<Trade>)
  {
    forall x | x in r :: Before(y, x)
  }

  /** `... ORDER BY created_at DESC LIMIT limit OFFSET offset`. */
  function Select(t: Table, p: Trade -> bool, limit: nat, offset: nat): (r: seq<Trade>)
    requires Valid(t)
    ensures |r| <= limit
    ensures NewestFirst(r)
    ensures forall x | x in r :: x.id in t.rows && t.rows[x.id] == x && p(x)
    // the window is contiguous: a matching row left out is newer than every
    // returned row (skipped by OFFSET) or older than every one (cut by LIMIT)
    ensures forall k | k in t.rows && p(t.rows[k]) && t.rows[k] !in r ::
              NewerThanAll(t.rows[k], r) || OlderThanAll(t.rows[k], r)
    // without an offset the result is the newest `limit` matches: a match is
    // left out only when the limit is reached, and then it is older than all
    ensures offset == 0 ==>
              forall k | k in t.rows && p(t.rows[k]) && t.rows[k] !in r ::
                |r| == limit && OlderThanAll(t.rows[k], r)
  {
    var all := AllMatches(t, p);
    var lo := Min(offset, |all|);
    var hi := Min(offset + limit, |all|);
    WindowOfMatches(t, p, all, lo, hi);
    all[lo..hi]
  }

  /** What the window `lo..hi` of all matches, newest first, satisfies. */
  lemma WindowOfMatches(t: Table, p: Trade -> bool, all: seq<Trade>, lo: int, hi: int)
    requires NewestFirst(all) && 0 <= lo <= hi <= |all|
    requires forall x | x in all :: x.id in t.rows && t.rows[x.id] == x && p(x)
    requires forall k | k in t.rows && p(t.rows[k]) :: t.rows[k] in all
    ensures NewestFirst(all[lo..hi])
    ensures forall x | x in all[lo..hi] :: x.id in t.rows && t.rows[x.id] == x && p(x)
    ensures forall k | k in t.rows && p(t.rows[k]) && t.rows[k] !in all[lo..hi] ::
              NewerThanAll(t.rows[k], all[lo..hi]) || OlderThanAll(t.rows[k], all[lo..hi])
    ensures lo == 0 ==>
              forall k | k in t.rows && p(t.rows[k]) && t.rows[k] !in all[lo..hi] ::
                hi < |all| && OlderThanAll(t.rows[k], all[lo..hi])
  {
    var r := all[lo..hi];
    assert forall x | x in r :: x in all;
    forall k | k in t.rows && p(t.rows[k]) && t.rows[k] !in r
      ensures NewerThanAll(t.rows[k], r) || OlderThanAll(t.rows[k], r)
      ensures lo == 0 ==> hi < |all| && OlderThanAll(t.rows[k], r)
    {
      WindowLeavesOut(all, lo, hi, t.rows[k]);
    }
  }

  /** A row of an ordered sequence that is outside the window `lo..hi` lies
      entirely before or entirely after it. */
  lemma WindowLeavesOut(all: seq<Trade>, lo: int, hi: int, y: Trade)
    requires NewestFirst(all) && 0 <= lo <= hi <= |all|
    requires y in all && y !in all[lo..hi]
    ensures NewerThanAll(y, all[lo..hi]) || OlderThanAll(y, all[lo..hi])
    ensures lo == 0 ==> hi < |all| && OlderThanAll(y, all[lo..hi])
  {
    var j :| 0 <= j < |all| && all[j] == y;
    forall x | x in all[lo..hi]
      ensures j < lo ==> Before(y, x)
      ensures j >= hi ==> Before(x, y)
    {
      var i :| 0 <= i < hi - lo && all[lo..hi][i] == x;
      assert all[lo + i] == x;
    }
  }

  /** `listActive`: active rows, newest first, `limit` of them after `offset`. */
  function ListActive(t: Table, limit: nat, offset: nat): (r: seq<Trade>)
    requires Valid(t)
    ensures |r| <= limit
    ensures NewestFirst(r)
    ensures forall x | x in r :: x.id in t.rows && t.rows[x.id] == x && x.status == Active
    ensures offset == 0 ==>
              forall k | k in t.rows && t.rows[k].status == Active && t.rows[k] !in r ::
                |r| == limit && OlderThanAll(t.rows[k], r)
  {
    Select(t, (x: Trade) => x.status == Active, limit, offset)
  }

  /** `listByUser`: the user's active rows, newest first, at most `limit`. */
  function ListByUser(t: Table, userId: string, limit: nat): (r: seq<Trade>)
    requires Valid(t)
    ensures |r| <= limit
    ensures NewestFirst(r)
    ensures forall x | x in r :: x.id in t.rows && t.rows[x.id] == x && x.userId == userId && x.status == Active
    ensures forall k | k in t.rows && t.rows[k].userId == userId && t.rows[k].status == Active && t.rows[k] !in r ::
              |r| == limit && OlderThanAll(t.rows[k], r)
  {
    Select(t, (x: Trade) => x.userId == userId && x.status == Active, limit, 0)
  }

  /** The search condition: `LOWER(have) LIKE ? OR LOWER(want) LIKE ?`. */
  predicate SearchMatch(x: Trade, pattern: string)
  {
    Like(Lower(x.have), pattern) || Like(Lower(x.want), pattern)
  }

  /** `simpleSearch`: active rows whose have or want matches the pattern,
      newest first, at most 20. */
  function SimpleSearch(t: Table, pattern: string): (r: seq<Trade>)
    requires Valid(t)
    ensures |r| <= SearchLimit
    ensures NewestFirst(r)
    ensures forall x | x in r :: x.id in t.rows && t.rows[x.id] == x && x.status == Active && SearchMatch(x, pattern)
    ensures forall k | k in t.rows && t.rows[k].status == Active && SearchMatch(t.rows[k], pattern) && t.rows[k] !in r ::
              |r| == SearchLimit && OlderThanAll(t.rows[k], r)
  {
    Select(t, (x: Trade) => x.status == Active && SearchMatch(x, pattern), SearchLimit, 0)
  }

  /** With the `%q%` pattern the bot builds, a row matches exactly when `q`
      occurs in its have or want text, ASCII case ignored. */
  lemma SearchMatchIsContainment(x: Trade, q: string)
    requires NoWildcards(q)
    ensures SearchMatch(x, "%" + q + "%") <==> Contains(Lower(x.have), Lower(q)) || Contains(Lower(x.want), Lower(q))
  {
    LikeInfix(Lower(x.have), q);
    LikeInfix(Lower(x.want), q);
    LowerIdempotent(x.have);
    LowerIdempotent(x.want);
  }
}
