/**
 * The relational operations the queries are built from, on rows held in a sequence:
 * selection (`WHERE`), ordering (`ORDER BY`) and windowing (`LIMIT ... OFFSET ...`).
 */
module Seqs {

  function Min(a: int, b: int): int { if a <= b then a else b }

  /** `WHERE p`: the rows satisfying `p`, in their original order (`FilterKeepsOrder`), each as
      often as in `s` (`FilterMultiset`). */
  function Filter<T(!new)>(s: seq<T>, p: T -> bool): (r: seq<T>)
    ensures |r| <= |s|
    ensures forall x :: x in r <==> x in s && p(x)
  {
    if s == [] then []
    else
      assert s == [s[0]] + s[1..];
      (if p(s[0]) then [s[0]] else []) + Filter(s[1..], p)
  }

  /** The selection keeps every row satisfying `p` as often as it occurs in `s`. */
  lemma {:induction false} FilterMultiset<T(!new)>(s: seq<T>, p: T -> bool)
    ensures forall x :: multiset(Filter(s, p))[x] == if p(x) then multiset(s)[x] else 0
  {
    if s != [] {
      FilterMultiset(s[1..], p);
      assert s == [s[0]] + s[1..];
      assert multiset(s) == multiset{s[0]} + multiset(s[1..]);
    }
  }

  /** The positions of the rows `p` keeps, counted from `base`. */
  function KeptPositions<T>(s: seq<T>, p: T -> bool, base: nat): seq<nat>
    decreases |s|
  {
    if s == [] then [] else (if p(s[0]) then [base] else []) + KeptPositions(s[1..], p, base + 1)
  }

  /** `r` is the selection of the rows of `s` at positions `ix` (counted from `base`): in the
      order of `s`, the positions increasing, and no row satisfying `p` missed. */
  ghost predicate SelectedAt<T>(r: seq<T>, ix: seq<nat>, s: seq<T>, p: T -> bool, base: nat)
  {
    && |ix| == |r|
    && (forall k | 0 <= k < |r| :: base <= ix[k] < base + |s| && r[k] == s[ix[k] - base])
    && (forall k, l | 0 <= k < l < |ix| :: ix[k] < ix[l])
    && (forall i | 0 <= i < |s| && p(s[i]) :: base + i in ix)
  }

  /** The selection keeps the rows in their original order: its `k`-th row is the row at the
      `k`-th kept position, the positions increase, and every position whose row satisfies
      `p` is among them (positions counted from `base`; from 0, they index `s`). */
  lemma {:induction false} FilterKeepsOrder<T(!new)>(s: seq<T>, p: T -> bool, base: nat)
    ensures SelectedAt(Filter(s, p), KeptPositions(s, p, base), s, p, base)
    decreases |s|
  {
    if s != [] {
      FilterKeepsOrder(s[1..], p, base + 1);
      var r, ix := Filter(s[1..], p), KeptPositions(s[1..], p, base + 1);
      if p(s[0]) {
        assert Filter(s, p) == [s[0]] + r && KeptPositions(s, p, base) == [base] + ix;
        SelectedAtKeep(s, p, base, r, ix);
      } else {
        assert Filter(s, p) == r && KeptPositions(s, p, base) == ix;
        SelectedAtSkip(s, p, base, r, ix);
      }
    }
  }

  /** A first row `p` keeps, in front of the selection of the rest: it comes first, at
      position `base`. */
  lemma SelectedAtKeep<T>(s: seq<T>, p: T -> bool, base: nat, r: seq<T>, ix: seq<nat>)
    requires s != [] && p(s[0])
    requires SelectedAt(r, ix, s[1..], p, base + 1)
    ensures SelectedAt([s[0]] + r, [base] + ix, s, p, base)
  {
    var r1, ix1 := [s[0]] + r, [base] + ix;
    forall k | 0 <= k < |r1| ensures base <= ix1[k] < base + |s| && r1[k] == s[ix1[k] - base] {
      if k > 0 {
        assert r1[k] == r[k - 1] && ix1[k] == ix[k - 1];
        assert s[ix1[k] - base] == s[1..][ix[k - 1] - (base + 1)];
      }
    }
    forall k, l | 0 <= k < l < |ix1| ensures ix1[k] < ix1[l] {
      assert ix1[l] == ix[l - 1];
      if k > 0 {
        assert ix1[k] == ix[k - 1];
      }
    }
    forall i | 0 <= i < |s| && p(s[i]) ensures base + i in ix1 {
      if i > 0 {
        assert s[i] == s[1..][i - 1];
      }
    }
  }

  /** A first row `p` drops: the selection of the rest is the selection of all. */
  lemma SelectedAtSkip<T>(s: seq<T>, p: T -> bool, base: nat, r: seq<T>, ix: seq<nat>)
    requires s != [] && !p(s[0])
    requires SelectedAt(r, ix, s[1..], p, base + 1)
    ensures SelectedAt(r, ix, s, p, base)
  {
    forall k | 0 <= k < |r| ensures r[k] == s[ix[k] - base] {
      assert s[ix[k] - base] == s[1..][ix[k] - (base + 1)];
    }
    forall i | 0 <= i < |s| && p(s[i]) ensures base + i in ix {
      assert s[i] == s[1..][i - 1];
    }
  }

  /** A condition every row satisfies selects all of them, in their order. */
  lemma {:induction false} FilterAll<T(!new)>(s: seq<T>, p: T -> bool)
    requires forall i | 0 <= i < |s| :: p(s[i])
    ensures Filter(s, p) == s
  {
    if s != [] {
      FilterAll(s[1..], p);
    }
  }

  /** The number of rows satisfying `p`: what `SELECT count(*) ... WHERE p` returns. */
  function Count<T>(s: seq<T>, p: T -> bool): nat
  {
    if s == [] then 0 else (if p(s[0]) then 1 else 0) + Count(s[1..], p)
  }

  /** The selection holds exactly as many rows as the count says. */
  lemma {:induction false} FilterSizeIsCount<T(!new)>(s: seq<T>, p: T -> bool)
    ensures |Filter(s, p)| == Count(s, p)
  {
    if s != [] {
      FilterSizeIsCount(s[1..], p);
    }
  }

  predicate SortedBy<T>(s: seq<T>, key: T -> int)
  {
    forall i, j | 0 <= i < j < |s| :: key(s[i]) <= key(s[j])
  }

  predicate StrictlyIncreasing<T>(s: seq<T>, key: T -> int)
  {
    forall i, j | 0 <= i < j < |s| :: key(s[i]) < key(s[j])
  }

  /** Strictly increasing keys are unique keys: two rows with the same key are the same row. */
  lemma IncreasingKeysAreUnique<T>(s: seq<T>, key: T -> int, x: T, y: T)
    requires StrictlyIncreasing(s, key)
    requires x in s && y in s && key(x) == key(y)
    ensures x == y
  {
    var i :| 0 <= i < |s| && s[i] == x;
    var j :| 0 <= j < |s| && s[j] == y;
    if i < j {
      assert key(s[i]) < key(s[j]);
    } else if j < i {
      assert key(s[j]) < key(s[i]);
    }
  }

  /** A bound below every key of `s` stays below every key of a selection from `s`. */
  lemma {:induction false} FilterKeepsBound<T(!new)>(s: seq<T>, p: T -> bool, key: T -> int, b: int)
    requires forall i | 0 <= i < |s| :: b < key(s[i])
    ensures forall i | 0 <= i < |Filter(s, p)| :: b < key(Filter(s, p)[i])
  {
    if s != [] {
      FilterKeepsBound(s[1..], p, key, b);
      var rest := Filter(s[1..], p);
      var r := Filter(s, p);
      if p(s[0]) {
        assert r == [s[0]] + rest;
        forall i | 0 < i < |r| ensures b < key(r[i]) {
          assert r[i] == rest[i - 1];
        }
      } else {
        assert r == rest;
      }
    }
  }

  /** Dropping rows keeps the remaining ones strictly increasing. */
  lemma {:induction false} FilterKeepsIncreasing<T(!new)>(s: seq<T>, p: T -> bool, key: T -> int)
    requires StrictlyIncreasing(s, key)
    ensures StrictlyIncreasing(Filter(s, p), key)
  {
    if s != [] {
      FilterKeepsIncreasing(s[1..], p, key);
      forall i | 0 <= i < |s[1..]| ensures key(s[0]) < key(s[1..][i]) {
        assert s[1..][i] == s[i + 1];
      }
      FilterKeepsBound(s[1..], p, key, key(s[0]));
      var rest := Filter(s[1..], p);
      var r := Filter(s, p);
      if p(s[0]) {
        assert r == [s[0]] + rest;
        forall i, j | 0 <= i < j < |r| ensures key(r[i]) < key(r[j]) {
          assert r[j] == rest[j - 1];
          if i > 0 {
            assert r[i] == rest[i - 1];
          }
        }
      } else {
        assert r == rest;
      }
    }
  }

  /** `x` comes no later than `y` under `ORDER BY key, tie`. */
  predicate LexLe<T>(x: T, y: T, key: T -> int, tie: T -> int)
  {
    key(x) < key(y) || (key(x) == key(y) && tie(x) <= tie(y))
  }

  /** The rows are in `ORDER BY key, tie` order. */
  predicate SortedThenBy<T>(s: seq<T>, key: T -> int, tie: T -> int)
  {
    forall i, j | 0 <= i < j < |s| :: LexLe(s[i], s[j], key, tie)
  }

  /** One step of insertion sort: `x` goes before the first row that does not come before it. */
  function Insert<T(!new)>(x: T, s: seq<T>, key: T -> int, tie: T -> int): (r: seq<T>)
    ensures |r| == |s| + 1
    ensures multiset(r) == multiset(s) + multiset{x}
    ensures r[0] == x || (s != [] && r[0] == s[0])
  {
    if s == [] || LexLe(x, s[0], key, tie) then
      [x] + s
    else
      assert s == [s[0]] + s[1..];
      [s[0]] + Insert(x, s[1..], key, tie)
  }

  /** Inserting into rows in `ORDER BY key, tie` order keeps them in that order. */
  lemma {:induction false} InsertSorted<T(!new)>(x: T, s: seq<T>, key: T -> int, tie: T -> int)
    requires SortedThenBy(s, key, tie)
    ensures SortedThenBy(Insert(x, s, key, tie), key, tie)
  {
    if s != [] && !LexLe(x, s[0], key, tie) {
      InsertSorted(x, s[1..], key, tie);
      var rest := Insert(x, s[1..], key, tie);
      var r := Insert(x, s, key, tie);
      assert r == [s[0]] + rest;
      assert LexLe(s[0], rest[0], key, tie);
      forall i, j | 0 <= i < j < |r| ensures LexLe(r[i], r[j], key, tie) {
        assert r[j] == rest[j - 1];
        if i == 0 {
          assert LexLe(rest[0], rest[j - 1], key, tie);
        } else {
          assert r[i] == rest[i - 1];
        }
      }
    }
  }

  /** `ORDER BY key, tie`: the same rows, ordered by `key` and, among equal keys, by `tie`. */
  function SortBy<T(!new)>(s: seq<T>, key: T -> int, tie: T -> int): (r: seq<T>)
    ensures |r| == |s|
    ensures SortedThenBy(r, key, tie)
    ensures multiset(r) == multiset(s)
  {
    if s == [] then []
    else
      var t := SortBy(s[1..], key, tie);
      InsertSorted(s[0], t, key, tie);
      assert multiset(s) == multiset(s[1..]) + multiset{s[0]} by {
        assert s == [s[0]] + s[1..];
      }
      Insert(s[0], t, key, tie)
  }

  /** Rows in `ORDER BY key, tie` order are in `ORDER BY key` order. */
  lemma SortedThenBySortedBy<T>(s: seq<T>, key: T -> int, tie: T -> int)
    requires SortedThenBy(s, key, tie)
    ensures SortedBy(s, key)
  {
    forall i, j | 0 <= i < j < |s| ensures key(s[i]) <= key(s[j]) {
      assert LexLe(s[i], s[j], key, tie);
    }
  }

  lemma SortedThenByTail<T>(s: seq<T>, key: T -> int, tie: T -> int)
    requires s != [] && SortedThenBy(s, key, tie)
    ensures SortedThenBy(s[1..], key, tie)
  {
    forall i, j | 0 <= i < j < |s| - 1 ensures LexLe(s[1..][i], s[1..][j], key, tie) {
      assert s[1..][i] == s[i + 1] && s[1..][j] == s[j + 1];
    }
  }

  /** The first row of an ordering comes no later than any row of it. */
  lemma SortedThenByHead<T>(s: seq<T>, key: T -> int, tie: T -> int, x: T)
    requires SortedThenBy(s, key, tie) && x in s
    ensures LexLe(s[0], x, key, tie)
  {
    var i :| 0 <= i < |s| && s[i] == x;
    if i > 0 {
      assert LexLe(s[0], s[i], key, tie);
    }
  }

  lemma SameHeadSameTail<T>(a: seq<T>, b: seq<T>)
    requires a != [] && b != [] && a[0] == b[0] && multiset(a) == multiset(b)
    ensures multiset(a[1..]) == multiset(b[1..])
  {
    assert a == [a[0]] + a[1..] && b == [b[0]] + b[1..];
    assert multiset(a[1..]) == multiset(a) - multiset{a[0]};
    assert multiset(b[1..]) == multiset(b) - multiset{b[0]};
  }

  /** Where `tie` identifies rows, `ORDER BY key, tie` leaves no choice: two orderings of the
      same rows that both follow it are the same sequence. */
  lemma {:induction false} SortedThenByUnique<T>(a: seq<T>, b: seq<T>, key: T -> int, tie: T -> int)
    requires multiset(a) == multiset(b)
    requires SortedThenBy(a, key, tie) && SortedThenBy(b, key, tie)
    requires forall x, y | x in a && y in a && tie(x) == tie(y) :: x == y
    ensures a == b
  {
    assert |a| == |multiset(a)| == |multiset(b)| == |b|;
    if a != [] {
      assert a[0] in multiset(b) && b[0] in multiset(a);
      SortedThenByHead(a, key, tie, b[0]);
      SortedThenByHead(b, key, tie, a[0]);
      assert a[0] == b[0];
      SameHeadSameTail(a, b);
      SortedThenByTail(a, key, tie);
      SortedThenByTail(b, key, tie);
      assert forall x | x in a[1..] :: x in a;
      SortedThenByUnique(a[1..], b[1..], key, tie);
      assert a == [a[0]] + a[1..] && b == [b[0]] + b[1..];
    }
  }

  /** `LIMIT limit OFFSET offset`: the rows at positions `offset` up to `offset + limit`. */
  function Window<T>(s: seq<T>, offset: nat, limit: nat): (r: seq<T>)
    ensures |r| <= limit
    ensures |r| == if offset >= |s| then 0 else Min(limit, |s| - offset)
    ensures forall i | 0 <= i < |r| :: offset + i < |s| && r[i] == s[offset + i]
  {
    if offset >= |s| then [] else s[offset..offset + Min(limit, |s| - offset)]
  }

  lemma WindowIsSlice<T>(s: seq<T>, offset: nat, limit: nat)
    ensures Window(s, offset, limit) == s[Min(offset, |s|)..Min(offset + limit, |s|)]
  {
  }

  lemma MultiplyStep(n: nat, limit: nat)
    requires n > 0
    ensures (n - 1) * limit + limit == n * limit
    ensures 0 <= (n - 1) * limit
  {
  }

  lemma AdjacentSlices<T>(s: seq<T>, a: nat, b: nat, c: nat)
    requires a <= b <= c <= |s|
    ensures s[a..b] + s[b..c] == s[a..c]
  {
  }

  /** `n` pages of size `limit`, the first at `offset`, one after the other. */
  function Pages<T>(s: seq<T>, offset: nat, limit: nat, n: nat): seq<T>
    decreases n
  {
    if n == 0 then [] else Window(s, offset, limit) + Pages(s, offset + limit, limit, n - 1)
  }

  /** Pages at offsets `offset`, `offset + limit`, `offset + 2 * limit`, ... neither overlap nor
      leave gaps: together `n` of them are the `n * limit` rows from `offset` on. */
  lemma {:induction false} PagesAreSlice<T>(s: seq<T>, offset: nat, limit: nat, n: nat)
    ensures Pages(s, offset, limit, n) == s[Min(offset, |s|)..Min(offset + n * limit, |s|)]
    decreases n
  {
    if n > 0 {
      PagesAreSlice(s, offset + limit, limit, n - 1);
      MultiplyStep(n, limit);
      var m := (n - 1) * limit;
      var end := offset + limit + m;
      assert end == offset + n * limit;
      WindowIsSlice(s, offset, limit);
      AdjacentSlices(s, Min(offset, |s|), Min(offset + limit, |s|), Min(end, |s|));
    }
  }

  /** Read from the start, `n` pages are the first `n * limit` rows. */
  lemma PagesFromStartArePrefix<T>(s: seq<T>, limit: nat, n: nat)
    ensures Pages(s, 0, limit, n) <= s
    ensures |Pages(s, 0, limit, n)| == Min(n * limit, |s|)
  {
    PagesAreSlice(s, 0, limit, n);
    var e := Min(n * limit, |s|);
    assert Pages(s, 0, limit, n) == s[0..e];
    assert s[0..e] == s[..e];
  }
}
