/**
 * A stable sort into non-increasing key order. It stands for Python's
 * `sorted(xs, key=k, reverse=True)` (stable: equal keys keep their input
 * order) and for JavaScript's `Array.prototype.sort` with the comparator
 * `(a, b) => k(b) - k(a)` (stable since ECMAScript 2019).
 */
module StableSort {
  import opened Seqs

  /** Keys never increase from left to right. */
  predicate SortedDesc<T>(s: seq<T>, key: T -> int) {
    forall i, j :: 0 <= i < j < |s| ==> key(s[i]) >= key(s[j])
  }

  /** Among elements of equal key, `rank` increases from left to right. */
  predicate StableBy<T>(s: seq<T>, key: T -> int, rank: T -> int) {
    forall i, j :: 0 <= i < j < |s| && key(s[i]) == key(s[j]) ==> rank(s[i]) < rank(s[j])
  }

  /** No two elements share a `g` value. */
  predicate InjectiveOn<T, U(==)>(s: seq<T>, g: T -> U) {
    forall i, j :: 0 <= i < j < |s| ==> g(s[i]) != g(s[j])
  }

  /** The first position whose key is below `key(x)`, or `|s|`. */
  function InsertPos<T>(s: seq<T>, key: T -> int, x: T): (i: nat)
    ensures i <= |s|
    ensures forall j :: 0 <= j < i ==> key(s[j]) >= key(x)
    ensures i < |s| ==> key(s[i]) < key(x)
  {
    if s == [] || key(s[0]) < key(x) then 0 else 1 + InsertPos(s[1..], key, x)
  }

  /** `x` placed after every element of `s` whose key is at least its own. */
  function Insert<T>(s: seq<T>, key: T -> int, x: T): (r: seq<T>)
    ensures |r| == |s| + 1
    ensures multiset(r) == multiset(s) + multiset{x}
    ensures SortedDesc(s, key) ==> SortedDesc(r, key)
  {
    var i := InsertPos(s, key, x);
    assert s == s[..i] + s[i..];
    assert SortedDesc(s, key) ==> SortedDesc(s[..i] + [x] + s[i..], key) by {
      if SortedDesc(s, key) {
        InsertSorted(s, key, x, i);
      }
    }
    s[..i] + [x] + s[i..]
  }

  /** Putting `x` between the keys at least its own and those below it keeps a list descending. */
  lemma InsertSorted<T>(s: seq<T>, key: T -> int, x: T, i: nat)
    requires SortedDesc(s, key) && i <= |s|
    requires forall j :: 0 <= j < i ==> key(s[j]) >= key(x)
    requires i < |s| ==> key(s[i]) < key(x)
    ensures SortedDesc(s[..i] + [x] + s[i..], key)
  {
    var r := s[..i] + [x] + s[i..];
    forall a, b | 0 <= a < b < |r| ensures key(r[a]) >= key(r[b]) {
      if b < i {
        assert r[a] == s[a] && r[b] == s[b];
      } else if b == i {
        assert r[a] == s[a] && r[b] == x;
      } else if a < i {
        assert r[a] == s[a] && r[b] == s[b - 1];
      } else if a == i {
        assert r[a] == x && r[b] == s[b - 1];
        assert key(s[i]) >= key(s[b - 1]) || i == b - 1;
      } else {
        assert r[a] == s[a - 1] && r[b] == s[b - 1];
      }
    }
  }

  /** Insertion sort: each element, left to right, goes after the earlier ones whose key is at least its own. */
  function SortDesc<T>(s: seq<T>, key: T -> int): (r: seq<T>)
    ensures |r| == |s|
    ensures multiset(r) == multiset(s)
    ensures SortedDesc(r, key)
  {
    if s == [] then []
    else
      assert s == s[..|s| - 1] + [s[|s| - 1]];
      Insert(SortDesc(s[..|s| - 1], key), key, s[|s| - 1])
  }

  /** Index of the first element of maximal key. */
  function FirstMaxIndex<T>(s: seq<T>, key: T -> int): (i: nat)
    requires |s| > 0
    ensures i < |s|
    ensures forall j :: 0 <= j < |s| ==> key(s[j]) <= key(s[i])
    ensures forall j :: 0 <= j < i ==> key(s[j]) < key(s[i])
  {
    if |s| == 1 then 0
    else
      var m := FirstMaxIndex(s[..|s| - 1], key);
      assert forall j :: 0 <= j < |s| - 1 ==> s[..|s| - 1][j] == s[j];
      if key(s[|s| - 1]) > key(s[m]) then |s| - 1 else m
  }

  /** The head of the stable descending sort is the first element of maximal key. */
  lemma {:induction false} SortDescHead<T>(s: seq<T>, key: T -> int)
    requires |s| > 0
    ensures SortDesc(s, key)[0] == s[FirstMaxIndex(s, key)]
  {
    var init, x := s[..|s| - 1], s[|s| - 1];
    var t := SortDesc(init, key);
    if |s| > 1 {
      SortDescHead(init, key);
      var m := FirstMaxIndex(init, key);
      assert t[0] == init[m] == s[m];
      if key(x) > key(t[0]) {
        assert InsertPos(t, key, x) == 0;
      } else {
        assert InsertPos(t, key, x) > 0;
      }
    }
  }

  /** Inserting an element whose `g` value is new keeps the `g` values distinct. */
  lemma InsertInjective<T, U>(t: seq<T>, key: T -> int, g: T -> U, x: T)
    requires InjectiveOn(t, g)
    requires forall y :: y in t ==> g(y) != g(x)
    ensures InjectiveOn(Insert(t, key, x), g)
  {
    var p := InsertPos(t, key, x);
    var r := Insert(t, key, x);
    assert r == t[..p] + [x] + t[p..];
    assert forall k :: 0 <= k < p ==> r[k] == t[k];
    assert forall k :: p < k < |r| ==> r[k] == t[k - 1];
    forall a, b | 0 <= a < b < |r| ensures g(r[a]) != g(r[b]) {
      if a == p {
        assert r[b] in t;
      } else if b == p {
        assert r[a] in t;
      } else {
        var a', b' := if a < p then a else a - 1, if b < p then b else b - 1;
        assert r[a] == t[a'] && r[b] == t[b'];
      }
    }
  }

  /** Sorting preserves "no two elements share a `g` value". */
  lemma {:induction false} SortDescInjective<T, U>(s: seq<T>, key: T -> int, g: T -> U)
    requires InjectiveOn(s, g)
    ensures InjectiveOn(SortDesc(s, key), g)
  {
    if s != [] {
      var init, x := s[..|s| - 1], s[|s| - 1];
      assert s == init + [x];
      SortDescInjective(init, key, g);
      var t := SortDesc(init, key);
      forall y | y in t ensures g(y) != g(x) {
        assert y in multiset(init);
        var k :| 0 <= k < |init| && init[k] == y;
        assert init[k] == s[k];
      }
      InsertInjective(t, key, g, x);
    }
  }

  /** Inserting an element of the highest rank so far keeps equal keys in rank order. */
  lemma InsertStable<T>(t: seq<T>, key: T -> int, rank: T -> int, x: T)
    requires SortedDesc(t, key) && StableBy(t, key, rank)
    requires forall y :: y in t ==> rank(y) < rank(x)
    ensures StableBy(Insert(t, key, x), key, rank)
  {
    var p := InsertPos(t, key, x);
    assert forall k :: p <= k < |t| ==> key(t[k]) < key(x) by {
      forall k | p <= k < |t| ensures key(t[k]) < key(x) {
        assert key(t[k]) <= key(t[p]);
      }
    }
    InsertStableAt(t, key, rank, x, p);
  }

  /** `x`, of the highest rank so far and placed before every lower key, keeps equal keys in rank order. */
  lemma InsertStableAt<T>(t: seq<T>, key: T -> int, rank: T -> int, x: T, p: nat)
    requires p <= |t| && StableBy(t, key, rank)
    requires forall y :: y in t ==> rank(y) < rank(x)
    requires forall k :: p <= k < |t| ==> key(t[k]) < key(x)
    ensures StableBy(t[..p] + [x] + t[p..], key, rank)
  {
    var r := t[..p] + [x] + t[p..];
    forall a, b | 0 <= a < b < |r| && key(r[a]) == key(r[b]) ensures rank(r[a]) < rank(r[b]) {
      if b < p {
        assert r[a] == t[a] && r[b] == t[b];
      } else if b == p {
        assert r[a] == t[a] && r[b] == x;
      } else if a < p {
        assert r[a] == t[a] && r[b] == t[b - 1];
      } else if a > p {
        assert r[a] == t[a - 1] && r[b] == t[b - 1];
      }
    }
  }

  /**
   * Stability: if `rank` increases along the input, then elements of equal
   * key come out in increasing `rank`, i.e. in their input order.
   */
  lemma {:induction false} SortDescStable<T>(s: seq<T>, key: T -> int, rank: T -> int)
    requires forall i, j :: 0 <= i < j < |s| ==> rank(s[i]) < rank(s[j])
    ensures StableBy(SortDesc(s, key), key, rank)
  {
    if s != [] {
      var init, x := s[..|s| - 1], s[|s| - 1];
      assert s == init + [x];
      SortDescStable(init, key, rank);
      var t := SortDesc(init, key);
      forall y | y in t ensures rank(y) < rank(x) {
        assert y in multiset(init);
        var k :| 0 <= k < |init| && init[k] == y;
        assert init[k] == s[k];
      }
      InsertStable(t, key, rank, x);
    }
  }

  /**
   * Cutting a descending list in two: the prefix is still descending, the two
   * parts together hold the same elements, and nothing in the suffix has a
   * higher key than anything in the prefix.
   */
  lemma SortedSplit<T>(s: seq<T>, n: nat, key: T -> int)
    requires n <= |s| && SortedDesc(s, key)
    ensures SortedDesc(s[..n], key)
    ensures multiset(s[..n]) + multiset(s[n..]) == multiset(s)
    ensures forall x, y :: x in s[..n] && y in s[n..] ==> key(x) >= key(y)
  {
    assert s == s[..n] + s[n..];
    forall x, y | x in s[..n] && y in s[n..] ensures key(x) >= key(y) {
      var a :| 0 <= a < n && s[..n][a] == x;
      var b :| 0 <= b < |s| - n && s[n..][b] == y;
      assert s[a] == x && s[n + b] == y;
    }
  }

  /** An element missing from a prefix of a descending list has a key no higher than any in the prefix. */
  lemma SortedPrefixDominates<T>(s: seq<T>, n: nat, key: T -> int, x: T)
    requires n <= |s| && SortedDesc(s, key)
    requires x in s && x !in s[..n]
    ensures forall y :: y in s[..n] ==> key(y) >= key(x)
  {
    SortedSplit(s, n, key);
    assert s == s[..n] + s[n..];
  }

  /** A prefix of a stable order is stable. */
  lemma StablePrefix<T>(s: seq<T>, n: nat, key: T -> int, rank: T -> int)
    requires n <= |s| && StableBy(s, key, rank)
    ensures StableBy(s[..n], key, rank)
  {
    forall a, b | 0 <= a < b < n && key(s[..n][a]) == key(s[..n][b]) ensures rank(s[..n][a]) < rank(s[..n][b]) {
      assert s[..n][a] == s[a] && s[..n][b] == s[b];
    }
  }
}
