/**
 * Grouping posts by emotion label, the way the dashboard's accumulator
 * objects do it: one group per distinct label, groups in the order in which
 * their label first occurs in the input.
 */
module Grouping {
  import opened Seqs
  import opened OrderedMap
  import opened Posts

  /** The `top_emotion` of every post, in input order. */
  function Labels(posts: seq<Post>): (r: seq<string>)
    ensures |r| == |posts|
    ensures forall i :: 0 <= i < |posts| ==> r[i] == posts[i].emotion
  {
    seq(|posts|, i requires 0 <= i < |posts| => posts[i].emotion)
  }

  /** The distinct elements of `s`, each at the position of its first occurrence. */
  function Distinct(s: seq<string>): (d: seq<string>)
    ensures NoDuplicates(d)
    ensures forall x :: x in d <==> x in s
  {
    if s == [] then []
    else
      var init, last := s[..|s| - 1], s[|s| - 1];
      assert s == init + [last];
      var d := Distinct(init);
      if last in d then d else d + [last]
  }

  lemma DistinctSnoc(s: seq<string>, x: string)
    ensures Distinct(s + [x]) == if x in s then Distinct(s) else Distinct(s) + [x]
  {
    assert (s + [x])[..|s|] == s;
  }

  /** Earlier groups are those whose label occurs first earlier in the input. */
  lemma {:induction false} DistinctFirstOccurrence(s: seq<string>, i: nat, j: nat)
    requires i < j < |Distinct(s)|
    ensures IndexOf(s, Distinct(s)[i]) < IndexOf(s, Distinct(s)[j])
  {
    var init, last := s[..|s| - 1], s[|s| - 1];
    assert s == init + [last];
    var d := Distinct(init);
    var a, b := Distinct(s)[i], Distinct(s)[j];
    if last in d {
      DistinctFirstOccurrence(init, i, j);
      IndexOfSnoc(init, last, a);
      IndexOfSnoc(init, last, b);
    } else {
      assert i < |d|;
      if j < |d| {
        DistinctFirstOccurrence(init, i, j);
        IndexOfSnoc(init, last, a);
        IndexOfSnoc(init, last, b);
      } else {
        assert b == last && last !in init;
        IndexOfSnoc(init, last, a);
        IndexOfSnoc(init, last, b);
      }
    }
  }

  /** The posts labelled `e`, in input order. */
  function Members(posts: seq<Post>, e: string): (r: seq<Post>)
    ensures |r| <= |posts|
    ensures forall q :: q in r <==> q in posts && q.emotion == e
  {
    if posts == [] then []
    else
      var init, last := posts[..|posts| - 1], posts[|posts| - 1];
      assert posts == init + [last];
      var r := Members(init, e);
      if last.emotion == e then r + [last] else r
  }

  lemma MembersSnoc(posts: seq<Post>, p: Post, e: string)
    ensures Members(posts + [p], e) == Members(posts, e) + (if p.emotion == e then [p] else [])
  {
    assert (posts + [p])[..|posts|] == posts;
  }

  /** A label has members exactly when it occurs. */
  lemma MembersNonEmpty(posts: seq<Post>, e: string)
    ensures |Members(posts, e)| > 0 <==> e in Labels(posts)
  {
    if e in Labels(posts) {
      var i :| 0 <= i < |posts| && Labels(posts)[i] == e;
      assert posts[i] in Members(posts, e);
    }
  }

  /** The number of posts labelled `e`. */
  function Count(posts: seq<Post>, e: string): nat {
    |Members(posts, e)|
  }

  /** A left fold over a group of posts, from `d`, applying `step` post by post. */
  function Fold<V>(ms: seq<Post>, d: V, step: (V, Post) -> V): V {
    if ms == [] then d else step(Fold(ms[..|ms| - 1], d, step), ms[|ms| - 1])
  }

  lemma FoldSnoc<V>(ms: seq<Post>, p: Post, d: V, step: (V, Post) -> V)
    ensures Fold(ms + [p], d, step) == step(Fold(ms, d, step), p)
  {
    assert (ms + [p])[..|ms|] == ms;
  }

  /**
   * The accumulator object of a `reduce`/`forEach` over the posts keyed by
   * emotion: for each post, read the entry of its label (`d` when absent),
   * apply `step` and store the result back under that label.
   */
  function Accumulate<V>(posts: seq<Post>, d: V, step: (V, Post) -> V): Assoc<V> {
    if posts == [] then []
    else
      var acc, r := Accumulate(posts[..|posts| - 1], d, step), posts[|posts| - 1];
      Put(acc, r.emotion, step(Get(acc, r.emotion, d), r))
  }

  /** One more post updates only the entry of its own label. */
  lemma AccumulateSnoc<V>(posts: seq<Post>, p: Post, d: V, step: (V, Post) -> V)
    ensures var acc := Accumulate(posts, d, step);
      Accumulate(posts + [p], d, step) == Put(acc, p.emotion, step(Get(acc, p.emotion, d), p))
  {
    assert (posts + [p])[..|posts|] == posts;
  }

  /**
   * The accumulator groups the posts by emotion: one entry per distinct
   * label, in order of first occurrence, holding the fold of `step` over the
   * posts with that label; an absent label reads as the fold of no posts.
   */
  lemma {:induction false} AccumulateSpec<V>(posts: seq<Post>, d: V, step: (V, Post) -> V)
    ensures Keys(Accumulate(posts, d, step)) == Distinct(Labels(posts))
    ensures Valid(Accumulate(posts, d, step))
    ensures forall e :: Get(Accumulate(posts, d, step), e, d) == Fold(Members(posts, e), d, step)
    ensures forall i :: 0 <= i < |Accumulate(posts, d, step)| ==>
      Accumulate(posts, d, step)[i].1 == Fold(Members(posts, Accumulate(posts, d, step)[i].0), d, step)
  {
    var acc := Accumulate(posts, d, step);
    if posts == [] {
      forall e ensures Get(acc, e, d) == Fold(Members(posts, e), d, step) {
        assert Members(posts, e) == [];
      }
    } else {
      var init, r := posts[..|posts| - 1], posts[|posts| - 1];
      assert posts == init + [r];
      var prev := Accumulate(init, d, step);
      AccumulateSpec(init, d, step);
      assert Labels(posts) == Labels(init) + [r.emotion];
      DistinctSnoc(Labels(init), r.emotion);
      forall e ensures Get(acc, e, d) == Fold(Members(posts, e), d, step) {
        GetPut(prev, r.emotion, step(Get(prev, r.emotion, d), r), e, d);
        MembersSnoc(init, r, e);
        if e == r.emotion {
          FoldSnoc(Members(init, e), r, d, step);
        }
      }
    }
    forall i | 0 <= i < |acc| ensures acc[i].1 == Fold(Members(posts, acc[i].0), d, step) {
      assert Get(acc, acc[i].0, d) == acc[i].1;
    }
  }

  /** The sum of `w` over the members of each label in `ks`. */
  function GroupTotals(posts: seq<Post>, ks: seq<string>, w: Post -> int): int {
    if ks == [] then 0 else SumBy(Members(posts, ks[0]), w) + GroupTotals(posts, ks[1..], w)
  }

  lemma {:induction false} GroupTotalsEmpty(ks: seq<string>, w: Post -> int)
    ensures GroupTotals([], ks, w) == 0
  {
    if ks != [] {
      GroupTotalsEmpty(ks[1..], w);
    }
  }

  lemma {:induction false} GroupTotalsSnoc(posts: seq<Post>, p: Post, ks: seq<string>, w: Post -> int)
    requires NoDuplicates(ks)
    ensures GroupTotals(posts + [p], ks, w) == GroupTotals(posts, ks, w) + (if p.emotion in ks then w(p) else 0)
  {
    if ks != [] {
      GroupTotalsSnoc(posts, p, ks[1..], w);
      MembersSnoc(posts, p, ks[0]);
      SumBySnoc(Members(posts, ks[0]), p, w);
      assert p.emotion in ks <==> p.emotion == ks[0] || p.emotion in ks[1..];
      assert ks[0] !in ks[1..];
    }
  }

  /**
   * Grouping is a partition: summing any per-post quantity group by group
   * over all distinct labels gives its sum over all posts.
   */
  lemma {:induction false} GroupTotalsPartition(posts: seq<Post>, ks: seq<string>, w: Post -> int)
    requires NoDuplicates(ks)
    requires forall q :: q in posts ==> q.emotion in ks
    ensures GroupTotals(posts, ks, w) == SumBy(posts, w)
  {
    if posts == [] {
      GroupTotalsEmpty(ks, w);
    } else {
      var init, last := posts[..|posts| - 1], posts[|posts| - 1];
      assert posts == init + [last];
      GroupTotalsPartition(init, ks, w);
      GroupTotalsSnoc(init, last, ks, w);
    }
  }

  /** The sum of the values of an association list. */
  function SumValues(m: Assoc<int>): int {
    if m == [] then 0 else m[0].1 + SumValues(m[1..])
  }

  /**
   * If each entry of `g` holds the sum of `w` over the group of its key, and
   * the keys are the distinct labels, then the entries add up to the sum of
   * `w` over all posts.
   */
  lemma GroupedSum(posts: seq<Post>, g: Assoc<int>, w: Post -> int)
    requires Keys(g) == Distinct(Labels(posts))
    requires forall i :: 0 <= i < |g| ==> g[i].1 == SumBy(Members(posts, g[i].0), w)
    ensures SumValues(g) == SumBy(posts, w)
  {
    SumValuesAsTotals(posts, g, w);
    forall q | q in posts ensures q.emotion in Keys(g) {
      var i :| 0 <= i < |posts| && posts[i] == q;
      assert Labels(posts)[i] == q.emotion;
    }
    GroupTotalsPartition(posts, Keys(g), w);
  }

  lemma {:induction false} SumValuesAsTotals(posts: seq<Post>, g: Assoc<int>, w: Post -> int)
    requires forall i :: 0 <= i < |g| ==> g[i].1 == SumBy(Members(posts, g[i].0), w)
    ensures SumValues(g) == GroupTotals(posts, Keys(g), w)
  {
    if g != [] {
      SumValuesAsTotals(posts, g[1..], w);
      assert Keys(g)[1..] == Keys(g[1..]);
    }
  }

  lemma {:induction false} SumValuesSnoc(m: Assoc<int>, k: string, v: int)
    ensures SumValues(m + [(k, v)]) == SumValues(m) + v
  {
    if m != [] {
      assert (m + [(k, v)])[1..] == m[1..] + [(k, v)];
      SumValuesSnoc(m[1..], k, v);
    }
  }
}
