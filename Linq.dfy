/**
 * The LINQ-to-Objects operators the list queries chain together (`Where`,
 * `OrderBy`, `OrderByDescending`, `Skip`, `Take`), the ordinal
 * `string.Contains` test, and the page-count ceiling division.
 */
module Linq {

  // ---------------------------------------------------------------------
  // Subsequences
  // ---------------------------------------------------------------------

  /** `a` is `b` with some elements deleted and the rest kept in order. */
  predicate IsSubsequence<T(==,!new)>(a: seq<T>, b: seq<T>)
    decreases |b|
  {
    a == [] || (b != [] && ((a[0] == b[0] && IsSubsequence(a[1..], b[1..])) || IsSubsequence(a, b[1..])))
  }

  // ---------------------------------------------------------------------
  // Where
  // ---------------------------------------------------------------------

  /**
   * `Enumerable.Where`: the elements of `s` that satisfy `p`, in their
   * original order. Nothing that satisfies `p` is dropped (each such value
   * occurs as often as in `s`) and nothing else is kept.
   */
  function Where<T(==,!new)>(s: seq<T>, p: T -> bool): (r: seq<T>)
    ensures IsSubsequence(r, s)
    ensures forall i :: 0 <= i < |r| ==> p(r[i])
    ensures forall x :: p(x) ==> multiset(r)[x] == multiset(s)[x]
    ensures forall x :: !p(x) ==> multiset(r)[x] == 0
  {
    if s == [] then []
    else
      assert s == [s[0]] + s[1..];
      if p(s[0]) then [s[0]] + Where(s[1..], p) else Where(s[1..], p)
  }

  /** Two filters with the same verdict on every element select the same elements. */
  lemma {:induction false} WhereExtensional<T(!new)>(s: seq<T>, p: T -> bool, q: T -> bool)
    requires forall x :: p(x) == q(x)
    ensures Where(s, p) == Where(s, q)
  {
    if s != [] {
      WhereExtensional(s[1..], p, q);
    }
  }

  /** A chain `s.Where(p).Where(q)` is the single filter by `p && q`. */
  lemma {:induction false} WhereWhere<T(!new)>(s: seq<T>, p: T -> bool, q: T -> bool, pq: T -> bool)
    requires forall x :: pq(x) == (p(x) && q(x))
    ensures Where(Where(s, p), q) == Where(s, pq)
  {
    if s != [] {
      WhereWhere(s[1..], p, q, pq);
      if p(s[0]) {
        assert Where(s, p) == [s[0]] + Where(s[1..], p);
        assert Where(s, p)[1..] == Where(s[1..], p);
      }
    }
  }

  /** A filter that every element passes keeps the whole sequence. */
  lemma {:induction false} WhereAll<T(!new)>(s: seq<T>, p: T -> bool)
    requires forall i :: 0 <= i < |s| ==> p(s[i])
    ensures Where(s, p) == s
  {
    if s != [] {
      WhereAll(s[1..], p);
      assert s == [s[0]] + s[1..];
    }
  }

  /**
   * A filter applied only when `c` holds (`if (c) s = s.Where(q)`) after a
   * filter by `p` is the single filter by `p && (c ==> q)`.
   */
  lemma WhereIf<T(!new)>(s: seq<T>, p: T -> bool, c: bool, q: T -> bool, next: T -> bool)
    requires forall x :: next(x) == (p(x) && (c ==> q(x)))
    ensures (if c then Where(Where(s, p), q) else Where(s, p)) == Where(s, next)
  {
    if c {
      WhereWhere(s, p, q, next);
    } else {
      WhereExtensional(s, p, next);
    }
  }

  // ---------------------------------------------------------------------
  // OrderBy / OrderByDescending
  // ---------------------------------------------------------------------

  /** `le` relates every two keys one way or the other. */
  ghost predicate Total<K(!new)>(le: (K, K) -> bool) {
    forall a, b :: le(a, b) || le(b, a)
  }

  /** `le` chains. */
  ghost predicate Transitive<K(!new)>(le: (K, K) -> bool) {
    forall a, b, c :: le(a, b) && le(b, c) ==> le(a, c)
  }

  /** The keys of `s` appear in `le`-order. */
  ghost predicate SortedBy<T(!new), K(!new)>(s: seq<T>, key: T -> K, le: (K, K) -> bool) {
    forall i, j :: 0 <= i < j < |s| ==> le(key(s[i]), key(s[j]))
  }

  /** The comparer with its arguments swapped: the order `OrderByDescending` sorts by. */
  function Flip<K(!new)>(le: (K, K) -> bool): (f: (K, K) -> bool)
    ensures forall a, b :: f(a, b) == le(b, a)
  {
    (a, b) => le(b, a)
  }

  /** The filter that keeps the elements whose key is tied with `k` under `le`. */
  function TiedWith<T(==,!new), K(!new)>(key: T -> K, le: (K, K) -> bool, k: K): (p: T -> bool)
    ensures forall x :: p(x) == (le(key(x), k) && le(k, key(x)))
  {
    x => le(key(x), k) && le(k, key(x))
  }

  /**
   * Inserts `x`, which came before every element of `s` in the input,
   * in front of the first element whose key it does not exceed, so that
   * it stays ahead of every element it is tied with.
   */
  function Insert<T(==,!new), K(!new)>(x: T, s: seq<T>, key: T -> K, le: (K, K) -> bool): (r: seq<T>)
    ensures multiset(r) == multiset(s) + multiset{x}
  {
    if s == [] then [x]
    else if le(key(x), key(s[0])) then [x] + s
    else
      assert s == [s[0]] + s[1..];
      [s[0]] + Insert(x, s[1..], key, le)
  }

  /**
   * `Enumerable.OrderBy(key)` with comparer `le`: a stable sort, so the
   * result is a permutation of `s`.
   */
  function OrderBy<T(==,!new), K(!new)>(s: seq<T>, key: T -> K, le: (K, K) -> bool): (r: seq<T>)
    ensures multiset(r) == multiset(s)
  {
    if s == [] then []
    else
      assert s == [s[0]] + s[1..];
      Insert(s[0], OrderBy(s[1..], key, le), key, le)
  }

  /**
   * `Enumerable.OrderByDescending(key)` with comparer `le`. LINQ sorts
   * stably in this direction too: tied elements keep their input order,
   * so this is NOT the reverse of `OrderBy`.
   */
  function OrderByDescending<T(==,!new), K(!new)>(s: seq<T>, key: T -> K, le: (K, K) -> bool): (r: seq<T>)
    ensures multiset(r) == multiset(s)
  {
    OrderBy(s, key, Flip(le))
  }

  lemma {:induction false} InsertSorted<T(!new), K(!new)>(x: T, s: seq<T>, key: T -> K, le: (K, K) -> bool)
    requires Total(le) && Transitive(le)
    requires SortedBy(s, key, le)
    ensures SortedBy(Insert(x, s, key, le), key, le)
  {
    if s != [] && !le(key(x), key(s[0])) {
      var tail := Insert(x, s[1..], key, le);
      InsertSorted(x, s[1..], key, le);
      forall z | z in tail
        ensures le(key(s[0]), key(z))
      {
        assert z in multiset(tail);
        if z != x {
          assert z in s[1..];
        }
      }
      assert Insert(x, s, key, le) == [s[0]] + tail;
    }
  }

  /** Under a total preorder, `OrderBy` returns its input in ascending key order. */
  lemma {:induction false} OrderBySorted<T(!new), K(!new)>(s: seq<T>, key: T -> K, le: (K, K) -> bool)
    requires Total(le) && Transitive(le)
    ensures SortedBy(OrderBy(s, key, le), key, le)
  {
    if s != [] {
      OrderBySorted(s[1..], key, le);
      InsertSorted(s[0], OrderBy(s[1..], key, le), key, le);
    }
  }

  /** Flipping a comparer keeps it total and keeps it transitive. */
  lemma FlipTotalPreorder<K(!new)>(le: (K, K) -> bool)
    ensures Total(le) ==> Total(Flip(le))
    ensures Transitive(le) ==> Transitive(Flip(le))
  {
    var f := Flip(le);
    forall a, b | Total(le)
      ensures f(a, b) || f(b, a)
    {
      assert le(b, a) || le(a, b);
    }
    forall a, b, c | Transitive(le) && f(a, b) && f(b, c)
      ensures f(a, c)
    {
      assert le(c, b) && le(b, a);
    }
  }

  /** Under a total preorder, `OrderByDescending` returns its input in descending key order. */
  lemma OrderByDescendingSorted<T(!new), K(!new)>(s: seq<T>, key: T -> K, le: (K, K) -> bool)
    requires Total(le) && Transitive(le)
    ensures forall i, j :: 0 <= i < j < |OrderByDescending(s, key, le)| ==>
      le(key(OrderByDescending(s, key, le)[j]), key(OrderByDescending(s, key, le)[i]))
  {
    FlipTotalPreorder(le);
    OrderBySorted(s, key, Flip(le));
  }

  /** `Where` over a sequence with a known first element. */
  lemma WhereCons<T(!new)>(x: T, s: seq<T>, p: T -> bool)
    ensures Where([x] + s, p) == (if p(x) then [x] else []) + Where(s, p)
  {
    assert ([x] + s)[0] == x;
    assert ([x] + s)[1..] == s;
  }

  lemma {:induction false} WhereInsert<T(!new), K(!new)>(x: T, s: seq<T>, key: T -> K, le: (K, K) -> bool, p: T -> bool)
    requires p(x) ==> forall y :: y in s && p(y) ==> le(key(x), key(y))
    ensures Where(Insert(x, s, key, le), p) == (if p(x) then [x] else []) + Where(s, p)
  {
    if s == [] {
      WhereCons(x, s, p);
    } else if le(key(x), key(s[0])) {
      WhereCons(x, s, p);
    } else {
      var s0, s1 := s[0], s[1..];
      assert s == [s0] + s1;
      assert p(x) ==> !p(s0);
      WhereInsert(x, s1, key, le, p);
      WhereCons(s0, Insert(x, s1, key, le), p);
      WhereCons(s0, s1, p);
    }
  }

  /**
   * Stability: the elements tied with any key `k` appear in the sorted
   * output exactly as, and in the order, they appear in the input.
   */
  lemma {:induction false} OrderByStable<T(!new), K(!new)>(s: seq<T>, key: T -> K, le: (K, K) -> bool, k: K)
    requires Transitive(le)
    ensures Where(OrderBy(s, key, le), TiedWith(key, le, k)) == Where(s, TiedWith(key, le, k))
  {
    if s != [] {
      var p := TiedWith(key, le, k);
      var rest := OrderBy(s[1..], key, le);
      OrderByStable(s[1..], key, le, k);
      forall y | y in rest && p(y) && p(s[0])
        ensures le(key(s[0]), key(y))
      {
      }
      WhereInsert(s[0], rest, key, le, p);
    }
  }

  /** Stability of the descending sort: tied elements keep their input order. */
  lemma OrderByDescendingStable<T(!new), K(!new)>(s: seq<T>, key: T -> K, le: (K, K) -> bool, k: K)
    requires Transitive(le)
    ensures Where(OrderByDescending(s, key, le), TiedWith(key, le, k)) == Where(s, TiedWith(key, le, k))
  {
    FlipTotalPreorder(le);
    OrderByStable(s, key, Flip(le), k);
    WhereExtensional(OrderBy(s, key, Flip(le)), TiedWith(key, Flip(le), k), TiedWith(key, le, k));
    WhereExtensional(s, TiedWith(key, Flip(le), k), TiedWith(key, le, k));
  }

  // ---------------------------------------------------------------------
  // Skip / Take
  // ---------------------------------------------------------------------

  /** `Enumerable.Skip(n)`: the suffix after the first `n` elements; a count below zero skips nothing. */
  function Skip<T>(s: seq<T>, n: int): (r: seq<T>)
    ensures |r| == if n <= 0 then |s| else if n < |s| then |s| - n else 0
    ensures r == s[|s| - |r|..]
  {
    if n <= 0 then s else if n < |s| then s[n..] else []
  }

  /** `Enumerable.Take(n)`: the first `n` elements (all when there are fewer); a count below one takes nothing. */
  function Take<T>(s: seq<T>, n: int): (r: seq<T>)
    ensures |r| == if n <= 0 then 0 else if n < |s| then n else |s|
    ensures r == s[..|r|]
  {
    if n <= 0 then [] else if n < |s| then s[..n] else s
  }

  /**
   * `s.Skip(skip).Take(take)`: the contiguous slice that starts at `skip`
   * (at least 0, at most |s|) and holds at most `take` elements.
   */
  function Page<T>(s: seq<T>, skip: int, take: int): (r: seq<T>)
    ensures var lo := if skip <= 0 then 0 else if skip < |s| then skip else |s|;
            var hi := if take <= 0 then lo else if lo + take < |s| then lo + take else |s|;
            r == s[lo..hi]
    ensures |r| <= if take <= 0 then 0 else take
  {
    Take(Skip(s, skip), take)
  }

  // ---------------------------------------------------------------------
  // string.Contains (ordinal) and the page count
  // ---------------------------------------------------------------------

  /** `s` begins with `prefix`. */
  predicate StartsWith<T(==,!new)>(s: seq<T>, prefix: seq<T>) {
    |prefix| <= |s| && s[..|prefix|] == prefix
  }

  /** `sub` occurs in `s` starting at offset `i`. */
  predicate OccursAt<T(==,!new)>(s: seq<T>, sub: seq<T>, i: int) {
    0 <= i && i + |sub| <= |s| && s[i..i + |sub|] == sub
  }

  /** Ordinal `string.Contains`: `sub` occurs in `s` as a contiguous run, at some offset. */
  function Contains<T(==,!new)>(s: seq<T>, sub: seq<T>): (b: bool)
    ensures b <==> exists i :: OccursAt(s, sub, i)
    decreases |s|
  {
    if StartsWith(s, sub) then
      assert OccursAt(s, sub, 0);
      true
    else if s == [] then
      assert forall i :: !OccursAt(s, sub, i);
      false
    else
      var r := Contains(s[1..], sub);
      assert r ==> OccursAt(s, sub, 1 + (var j :| OccursAt(s[1..], sub, j); j)) by {
        if r {
          var j :| OccursAt(s[1..], sub, j);
          assert s[1..][j..j + |sub|] == s[j + 1..j + 1 + |sub|];
        }
      }
      assert forall i :: OccursAt(s, sub, i) ==> r by {
        forall i | OccursAt(s, sub, i)
          ensures r
        {
          assert i != 0;
          assert s[1..][i - 1..i - 1 + |sub|] == s[i..i + |sub|];
          assert OccursAt(s[1..], sub, i - 1);
        }
      }
      r
  }

  /**
   * `(int)Math.Ceiling((double)n / d)`: the least integer `r` with
   * `r >= n / d`. For the counts involved the double quotient is exact
   * enough that this integer division agrees with it.
   */
  function CeilDiv(n: nat, d: int): (r: int)
    requires d != 0
    ensures d > 0 ==> (r - 1) * d < n <= r * d
    ensures d < 0 ==> r * d <= n < (r - 1) * d
  {
    if d > 0 then
      var r := (n + d - 1) / d;
      assert (n + d - 1) == r * d + (n + d - 1) % d;
      r
    else
      var r := -(n / -d);
      assert n == (n / -d) * -d + n % -d;
      r
  }
}
