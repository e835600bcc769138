/**
 * The SQL clauses the two stores use, as functions on a table's rows:
 * `WHERE`, `ORDER BY ... DESC`, `LIMIT`, and `count(*)`.
 */
module Query {

  /** `WHERE p`: the rows satisfying `p`, in table order. */
  function Where<T>(s: seq<T>, p: T -> bool): (r: seq<T>)
    ensures |r| <= |s|
    ensures forall x | x in r :: x in s && p(x)
    ensures forall x | x in s && p(x) :: x in r
    decreases |s|
  {
    if s == [] then []
    else if p(s[0]) then [s[0]] + Where(s[1..], p)
    else Where(s[1..], p)
  }

  /** `count(*) ... WHERE p` */
  function Count<T>(s: seq<T>, p: T -> bool): nat {
    |Where(s, p)|
  }

  lemma {:induction false} CountZeroIff<T>(s: seq<T>, p: T -> bool)
    ensures Count(s, p) == 0 <==> forall x | x in s :: !p(x)
  {
    if Count(s, p) != 0 {
      var w := Where(s, p);
      assert w[0] in w;
    }
  }

  /** `WHERE p` never keeps more rows than `WHERE q` when `p` implies `q`. */
  lemma {:induction false} WhereMonotone<T>(s: seq<T>, p: T -> bool, q: T -> bool)
    requires forall x | x in s :: p(x) ==> q(x)
    ensures Count(s, p) <= Count(s, q)
    decreases |s|
  {
    if s != [] {
      WhereMonotone(s[1..], p, q);
    }
  }

  /** Every row is counted by exactly one of `p` and its negation `q`. */
  lemma {:induction false} CountComplement<T>(s: seq<T>, p: T -> bool, q: T -> bool)
    requires forall x | x in s :: q(x) == !p(x)
    ensures Count(s, p) + Count(s, q) == |s|
    decreases |s|
  {
    if s != [] {
      CountComplement(s[1..], p, q);
    }
  }

  /** Multiset facts about `Where` used by the stores' counting lemmas. */
  lemma {:induction false} WhereMultiset<T>(s: seq<T>, p: T -> bool)
    ensures multiset(Where(s, p)) <= multiset(s)
    decreases |s|
  {
    if s != [] {
      WhereMultiset(s[1..], p);
      assert s == [s[0]] + s[1..];
    }
  }

  /** Rows in strictly increasing key order, as rows inserted with an autoincrement id are. */
  predicate StrictlyIncreasing<T>(s: seq<T>, key: T -> int) {
    forall i, j | 0 <= i < j < |s| :: key(s[i]) < key(s[j])
  }

  /** `WHERE` keeps the table order, so it keeps the ids increasing. */
  lemma {:induction false} WhereKeepsIncreasing<T>(s: seq<T>, p: T -> bool, key: T -> int)
    requires StrictlyIncreasing(s, key)
    ensures StrictlyIncreasing(Where(s, p), key)
    decreases |s|
  {
    if s != [] {
      IncreasingSplit(s, key);
      WhereKeepsIncreasing(s[1..], p, key);
      if p(s[0]) {
        ConsIncreasing(s[0], Where(s[1..], p), key);
      }
    }
  }

  /** An increasing sequence is its first row, smaller than all the rest, before an increasing tail. */
  lemma {:induction false} IncreasingSplit<T>(s: seq<T>, key: T -> int)
    requires StrictlyIncreasing(s, key) && |s| >= 1
    ensures StrictlyIncreasing(s[1..], key)
    ensures forall y | y in s[1..] :: key(s[0]) < key(y)
  {
    var t := s[1..];
    forall i, j | 0 <= i < j < |t|
      ensures key(t[i]) < key(t[j])
    {
      assert t[i] == s[i + 1] && t[j] == s[j + 1];
    }
    forall y | y in t
      ensures key(s[0]) < key(y)
    {
      var k :| 0 <= k < |t| && t[k] == y;
      assert s[k + 1] == y;
    }
  }

  /** A row smaller than every row of an increasing sequence can go in front of it. */
  lemma {:induction false} ConsIncreasing<T>(h: T, rest: seq<T>, key: T -> int)
    requires StrictlyIncreasing(rest, key)
    requires forall y | y in rest :: key(h) < key(y)
    ensures StrictlyIncreasing([h] + rest, key)
  {
    var r := [h] + rest;
    forall i, j | 0 <= i < j < |r|
      ensures key(r[i]) < key(r[j])
    {
      assert r[j] == rest[j - 1];
      if i > 0 {
        assert r[i] == rest[i - 1];
      }
    }
  }

  /** Rows in non-increasing key order. */
  predicate SortedDesc<T>(s: seq<T>, key: T -> int) {
    forall i, j | 0 <= i < j < |s| :: key(s[i]) >= key(s[j])
  }

  /** Inserts `x` into a sorted sequence, keeping it sorted. */
  function InsertDesc<T(==)>(x: T, s: seq<T>, key: T -> int): (r: seq<T>)
    requires SortedDesc(s, key)
    ensures SortedDesc(r, key)
    ensures multiset(r) == multiset(s) + multiset{x}
    ensures forall y | y in r :: y == x || y in s
    decreases |s|
  {
    if s == [] || key(x) >= key(s[0]) then
      HeadBounds(s, key, key(x));
      ConsSorted(x, s, key);
      [x] + s
    else
      SortedTail(s, key);
      var rest := InsertDesc(x, s[1..], key);
      InsertedBounded(x, s, rest, key);
      ConsSorted(s[0], rest, key);
      assert s == [s[0]] + s[1..];
      [s[0]] + rest
  }

  /** Dropping the first row keeps a sequence sorted. */
  lemma {:induction false} SortedTail<T>(s: seq<T>, key: T -> int)
    requires SortedDesc(s, key) && |s| >= 1
    ensures SortedDesc(s[1..], key)
  {
    var t := s[1..];
    forall i, j | 0 <= i < j < |t|
      ensures key(t[i]) >= key(t[j])
    {
      assert t[i] == s[i + 1] && t[j] == s[j + 1];
    }
  }

  /** A bound on the first row's key bounds every row of a sorted sequence. */
  lemma {:induction false} HeadBounds<T>(s: seq<T>, key: T -> int, b: int)
    requires SortedDesc(s, key)
    requires s == [] || key(s[0]) <= b
    ensures forall y | y in s :: key(y) <= b
  {
    forall y | y in s
      ensures key(y) <= b
    {
      var k :| 0 <= k < |s| && s[k] == y;
      assert key(s[0]) >= key(s[k]);
    }
  }

  /** After inserting `x` into the tail, every row is still bounded by the head. */
  lemma {:induction false} InsertedBounded<T>(x: T, s: seq<T>, rest: seq<T>, key: T -> int)
    requires SortedDesc(s, key) && |s| >= 1 && key(x) < key(s[0])
    requires forall y | y in rest :: y == x || y in s[1..]
    ensures forall y | y in rest :: key(y) <= key(s[0])
  {
    forall y | y in rest
      ensures key(y) <= key(s[0])
    {
      if y != x {
        HeadDominates(s, key, y);
      }
    }
  }

  /** In a sorted sequence the first row's key bounds every later one. */
  lemma {:induction false} HeadDominates<T>(s: seq<T>, key: T -> int, y: T)
    requires SortedDesc(s, key)
    requires |s| >= 1 && y in s[1..]
    ensures key(y) <= key(s[0])
  {
    var k :| 0 <= k < |s[1..]| && s[1..][k] == y;
    assert s[k + 1] == y;
  }

  /** A row whose key bounds a sorted sequence's keys can go in front of it. */
  lemma {:induction false} ConsSorted<T>(h: T, rest: seq<T>, key: T -> int)
    requires SortedDesc(rest, key)
    requires forall y | y in rest :: key(y) <= key(h)
    ensures SortedDesc([h] + rest, key)
  {
    var r := [h] + rest;
    forall i, j | 0 <= i < j < |r|
      ensures key(r[i]) >= key(r[j])
    {
      assert r[j] == rest[j - 1];
      if i > 0 {
        assert r[i] == rest[i - 1];
      }
    }
  }

  /** `ORDER BY key DESC`: a sorted permutation of the rows. */
  function SortDesc<T(==)>(s: seq<T>, key: T -> int): (r: seq<T>)
    ensures SortedDesc(r, key)
    ensures multiset(r) == multiset(s)
    decreases |s|
  {
    if s == [] then []
    else
      assert s == [s[0]] + s[1..];
      InsertDesc(s[0], SortDesc(s[1..], key), key)
  }

  /** `LIMIT n`; SQLite reads a negative limit as no limit at all. */
  function Limit<T>(s: seq<T>, n: int): (r: seq<T>)
    ensures n < 0 ==> r == s
    ensures n >= 0 ==> |r| == if n < |s| then n else |s|
    ensures |r| <= |s| && r == s[..|r|]
  {
    if n < 0 || n >= |s| then s else s[..n]
  }

  /** `ORDER BY key DESC LIMIT n` */
  function TopDesc<T(==)>(s: seq<T>, key: T -> int, n: int): seq<T> {
    Limit(SortDesc(s, key), n)
  }

  /**
   * The rows `ORDER BY key DESC LIMIT n` returns are sorted, drawn from the
   * table, at most `n` of them (when `n` is not negative), and all of them
   * when the limit does not bite.
   */
  lemma {:induction false} TopDescBounds<T>(s: seq<T>, key: T -> int, n: int)
    ensures var r := TopDesc(s, key, n);
      && SortedDesc(r, key)
      && multiset(r) <= multiset(s)
      && (n >= 0 ==> |r| <= n)
      && (n < 0 || |s| <= n ==> multiset(r) == multiset(s))
  {
    var sorted := SortDesc(s, key);
    var r := TopDesc(s, key, n);
    assert sorted == r + sorted[|r|..];
  }

  /** No row that `ORDER BY key DESC LIMIT n` leaves out has a larger key than a row it returns. */
  lemma {:induction false} TopDescDominates<T>(s: seq<T>, key: T -> int, n: int, x: T, y: T)
    requires x in TopDesc(s, key, n)
    requires y in multiset(s) - multiset(TopDesc(s, key, n))
    ensures key(x) >= key(y)
  {
    var sorted := SortDesc(s, key);
    var r := TopDesc(s, key, n);
    var rest := sorted[|r|..];
    assert sorted == r + rest;
    assert multiset(s) - multiset(r) == multiset(rest);
    assert y in rest;
    PrefixDominates(sorted, key, |r|, x, y);
  }

  /** In a sorted sequence every row before position `k` has a key at least that of every row from `k` on. */
  lemma {:induction false} PrefixDominates<T>(s: seq<T>, key: T -> int, k: nat, x: T, y: T)
    requires SortedDesc(s, key) && k <= |s|
    requires x in s[..k] && y in s[k..]
    ensures key(x) >= key(y)
  {
    var i :| 0 <= i < k && s[..k][i] == x;
    var j :| 0 <= j < |s| - k && s[k..][j] == y;
    assert s[i] == x && s[k + j] == y;
  }
}
