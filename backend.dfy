/**
 * The backend's list handling in backend/app.py: expanding a topic into
 * search terms, dropping duplicate and short posts and keeping the most
 * reacted-to, and picking the best-scored posts of each source.
 */
module Backend {
  import opened Seqs
  import opened StableSort
  import opened OrderedMap
  import opened Posts
  import opened Grouping
  import opened PyStrip

  /** The suffixes appended to the topic, in order. */
  const Suffixes: seq<string> := [" news", " trends", " discussion", " impact", " analysis", " opinions"]

  /** `max_terms`' default. */
  const DefaultMaxTerms: int := 6

  /** The seven variants of a topic: the topic itself, then the topic with each suffix. */
  function Variants(topic: string): (vs: seq<string>)
    ensures |vs| == 7
    ensures vs[0] == topic
    ensures forall k :: 1 <= k < 7 ==> vs[k] == topic + Suffixes[k - 1]
  {
    [topic] + seq(6, k requires 0 <= k < 6 => topic + Suffixes[k])
  }

  /** `expand_topic_semantically(topic, max_terms)`: `variants[:max_terms]`. */
  function ExpandTopic(topic: string, maxTerms: int): (terms: seq<string>)
    ensures maxTerms >= 0 ==> |terms| == Min(maxTerms, 7)
    ensures maxTerms < 0 ==> |terms| == Max(0, 7 + maxTerms)
    ensures forall k :: 0 <= k < |terms| ==> terms[k] == if k == 0 then topic else topic + Suffixes[k - 1]
  {
    PyPrefix(Variants(topic), maxTerms)
  }

  /**
   * With the default `max_terms` the search terms are the topic and its five
   * first variants; " opinions" is never searched.
   */
  lemma DefaultExpansion(topic: string)
    ensures ExpandTopic(topic, DefaultMaxTerms)
      == [topic, topic + " news", topic + " trends", topic + " discussion", topic + " impact", topic + " analysis"]
    ensures forall t :: t in ExpandTopic(topic, DefaultMaxTerms) ==> t != topic + " opinions"
  {
    var terms := ExpandTopic(topic, DefaultMaxTerms);
    assert terms[5] == topic + Suffixes[4];
    forall t | t in terms ensures t != topic + " opinions" {
      var k :| 0 <= k < |terms| && terms[k] == t;
      if k > 0 {
        assert t[|topic|..] == Suffixes[k - 1];
        assert (topic + " opinions")[|topic|..] == " opinions";
      } else {
        assert |t| < |topic + " opinions"|;
      }
    }
  }

  /** The shortest stripped text, exclusive, that a post may have to be kept. */
  const MinTextLength: nat := 30

  function StripText(p: Post): string { Strip(p.text) }

  /** `len(t) > 30` for the stripped text `t`. */
  predicate Qualifies(p: Post) {
    |StripText(p)| > MinTextLength
  }

  /**
   * `x["likes"] + len(x["text"]) / 100` scaled by 100 (the same order): the
   * length is that of the text as fetched, not stripped.
   */
  function SampleKey(p: Post): int {
    100 * p.likes + |p.text|
  }

  /**
   * The `unique` dict after the loop: each qualifying stripped text, in order
   * of first occurrence, mapped to the first post that has it.
   */
  function UniqueByText(posts: seq<Post>): Assoc<Post> {
    if posts == [] then []
    else
      var unique, p := UniqueByText(posts[..|posts| - 1]), posts[|posts| - 1];
      var t := StripText(p);
      if |t| > MinTextLength && t !in Keys(unique) then Put(unique, t, p) else unique
  }

  /** The stripped text of every post, in input order. */
  function Texts(posts: seq<Post>): (ts: seq<string>)
    ensures |ts| == |posts|
    ensures forall k :: 0 <= k < |posts| ==> ts[k] == StripText(posts[k])
  {
    seq(|posts|, k requires 0 <= k < |posts| => StripText(posts[k]))
  }

  /** The stripped texts of the qualifying posts, in input order. */
  function QualifiedTexts(posts: seq<Post>): (ts: seq<string>)
    ensures forall t :: t in ts <==> t in Texts(posts) && |t| > MinTextLength
  {
    if posts == [] then []
    else
      var init, p := posts[..|posts| - 1], posts[|posts| - 1];
      assert posts == init + [p];
      assert Texts(posts) == Texts(init) + [StripText(p)];
      var ts := QualifiedTexts(init);
      if Qualifies(p) then ts + [StripText(p)] else ts
  }

  /** The first post of `posts` whose stripped text is `t`. */
  function FirstWithText(posts: seq<Post>, t: string): (p: Post)
    requires t in Texts(posts)
    ensures p in posts && StripText(p) == t
  {
    if StripText(posts[0]) == t then posts[0]
    else
      assert Texts(posts) == [StripText(posts[0])] + Texts(posts[1..]);
      FirstWithText(posts[1..], t)
  }

  /**
   * The `unique` dict keeps one entry per distinct qualifying stripped text,
   * in order of first occurrence, and the post under each is the first input
   * post with that stripped text.
   */
  lemma {:induction false} UniqueByTextSpec(posts: seq<Post>)
    ensures Keys(UniqueByText(posts)) == Distinct(QualifiedTexts(posts))
    ensures Valid(UniqueByText(posts))
    ensures forall i :: 0 <= i < |UniqueByText(posts)| ==>
      var e := UniqueByText(posts)[i];
      && e.0 in Texts(posts)
      && e.1 == FirstWithText(posts, e.0)
      && Qualifies(e.1)
  {
    if posts != [] {
      var init, p := posts[..|posts| - 1], posts[|posts| - 1];
      assert posts == init + [p];
      UniqueByTextSpec(init);
      var u := UniqueByText(init);
      var t := StripText(p);
      DistinctSnoc(QualifiedTexts(init), t);
      var u' := UniqueByText(posts);
      forall i | 0 <= i < |u'|
        ensures u'[i].0 in Texts(posts)
        ensures u'[i].1 == FirstWithText(posts, u'[i].0)
        ensures Qualifies(u'[i].1)
      {
        if i < |u| {
          assert u'[i] == u[i];
          FirstWithTextSnoc(init, p, u[i].0);
        } else {
          assert u'[i] == (t, p);
          assert t !in QualifiedTexts(init);
          FirstWithTextNew(init, p);
        }
      }
    }
  }

  lemma {:induction false} FirstWithTextSnoc(posts: seq<Post>, p: Post, t: string)
    requires t in Texts(posts)
    ensures t in Texts(posts + [p])
    ensures FirstWithText(posts + [p], t) == FirstWithText(posts, t)
  {
    assert Texts(posts + [p]) == Texts(posts) + [StripText(p)];
    if StripText(posts[0]) != t {
      assert (posts + [p])[1..] == posts[1..] + [p];
      assert Texts(posts) == [StripText(posts[0])] + Texts(posts[1..]);
      FirstWithTextSnoc(posts[1..], p, t);
    }
  }

  lemma {:induction false} FirstWithTextNew(posts: seq<Post>, p: Post)
    requires StripText(p) !in Texts(posts)
    ensures StripText(p) in Texts(posts + [p])
    ensures FirstWithText(posts + [p], StripText(p)) == p
  {
    assert Texts(posts + [p]) == Texts(posts) + [StripText(p)];
    if posts != [] {
      assert StripText(posts[0]) == Texts(posts)[0];
      assert (posts + [p])[1..] == posts[1..] + [p];
      assert Texts(posts) == [StripText(posts[0])] + Texts(posts[1..]);
      FirstWithTextNew(posts[1..], p);
    }
  }

  /** `deduplicate_and_sample`'s result as a value. */
  function DedupSample(allPosts: seq<Post>, maxPosts: int): (r: seq<Post>)
    ensures maxPosts >= 0 ==> |r| <= maxPosts
    ensures forall p :: p in r ==> p in UniquePosts(allPosts)
  {
    var sorted := SortDesc(UniquePosts(allPosts), SampleKey);
    var r := PyPrefix(sorted, maxPosts);
    assert forall p :: p in r ==> p in UniquePosts(allPosts) by {
      forall p | p in r ensures p in UniquePosts(allPosts) {
        assert p in multiset(sorted);
      }
    }
    r
  }

  /**
   * `deduplicate_and_sample(all_posts, max_posts)`: the loop that fills
   * `unique`, then the sort by descending sample key and the slice.
   */
  method DeduplicateAndSample(allPosts: seq<Post>, maxPosts: int) returns (sample: seq<Post>)
    ensures sample == DedupSample(allPosts, maxPosts)
  {
    var unique: Assoc<Post> := [];
    for i := 0 to |allPosts|
      invariant unique == UniqueByText(allPosts[..i])
    {
      var p := allPosts[i];
      var t := Strip(p.text);
      assert allPosts[..i + 1][..i] == allPosts[..i];
      if |t| > MinTextLength && t !in Keys(unique) {
        unique := Put(unique, t, p);
      }
    }
    assert allPosts[..|allPosts|] == allPosts;
    var posts := Values(unique);
    var postsSorted := SortDesc(posts, SampleKey);
    sample := PyPrefix(postsSorted, maxPosts);
  }

  /** Position among the qualifying texts of the first occurrence of `p`'s stripped text. */
  function FirstSeen(allPosts: seq<Post>, p: Post): int {
    var ts := QualifiedTexts(allPosts);
    if StripText(p) in ts then IndexOf(ts, StripText(p)) else |ts|
  }

  /** The posts of the `unique` dict, before sorting. */
  function UniquePosts(allPosts: seq<Post>): seq<Post> {
    Values(UniqueByText(allPosts))
  }

  /**
   * The `i`-th post of `unique` is the first input post with the `i`-th
   * distinct qualifying stripped text.
   */
  lemma UniquePostsAt(allPosts: seq<Post>)
    ensures |UniquePosts(allPosts)| == |Distinct(QualifiedTexts(allPosts))|
    ensures forall i :: 0 <= i < |UniquePosts(allPosts)| ==>
      && StripText(UniquePosts(allPosts)[i]) == Distinct(QualifiedTexts(allPosts))[i]
      && Qualifies(UniquePosts(allPosts)[i])
      && UniquePosts(allPosts)[i] in allPosts
      && UniquePosts(allPosts)[i] == FirstWithText(allPosts, Distinct(QualifiedTexts(allPosts))[i])
  {
    var u := UniqueByText(allPosts);
    UniqueByTextSpec(allPosts);
    forall i | 0 <= i < |u|
      ensures StripText(u[i].1) == Distinct(QualifiedTexts(allPosts))[i]
    {
      assert Keys(u)[i] == u[i].0;
    }
  }

  /**
   * Every post of `unique` is a qualifying input post, the first with its
   * stripped text, and no two have the same stripped text.
   */
  lemma UniquePostsFirst(allPosts: seq<Post>)
    ensures forall p :: p in UniquePosts(allPosts) ==>
      p in allPosts && Qualifies(p) && p == FirstWithText(allPosts, StripText(p))
    ensures InjectiveOn(UniquePosts(allPosts), StripText)
  {
    var vs := UniquePosts(allPosts);
    UniquePostsAt(allPosts);
    forall p | p in vs ensures p in allPosts && Qualifies(p) && p == FirstWithText(allPosts, StripText(p)) {
      var i :| 0 <= i < |vs| && vs[i] == p;
    }
  }

  /** The posts of `unique` come in order of first occurrence of their stripped text. */
  lemma UniquePostsInOrder(allPosts: seq<Post>)
    ensures forall i, j :: 0 <= i < j < |UniquePosts(allPosts)| ==>
      FirstSeen(allPosts, UniquePosts(allPosts)[i]) < FirstSeen(allPosts, UniquePosts(allPosts)[j])
  {
    var vs := UniquePosts(allPosts);
    var ts := QualifiedTexts(allPosts);
    UniquePostsAt(allPosts);
    forall i, j | 0 <= i < j < |vs| ensures FirstSeen(allPosts, vs[i]) < FirstSeen(allPosts, vs[j]) {
      DistinctFirstOccurrence(ts, i, j);
    }
  }

  /** `unique` has one post per distinct qualifying stripped text. */
  lemma UniquePostsSize(allPosts: seq<Post>)
    ensures |UniquePosts(allPosts)| == |set t | t in QualifiedTexts(allPosts)|
  {
    var ts := QualifiedTexts(allPosts);
    assert |UniquePosts(allPosts)| == |Distinct(ts)| by {
      UniquePostsAt(allPosts);
    }
    DistinctCardinality(Distinct(ts));
    assert (set t | t in Distinct(ts)) == (set t | t in ts);
  }

  /** The first post of every qualifying stripped text is in `unique`. */
  lemma UniquePostsComplete(allPosts: seq<Post>, t: string)
    requires t in QualifiedTexts(allPosts)
    ensures FirstWithText(allPosts, t) in UniquePosts(allPosts)
  {
    var d := Distinct(QualifiedTexts(allPosts));
    UniquePostsAt(allPosts);
    var i := IndexOf(d, t);
    assert UniquePosts(allPosts)[i] == FirstWithText(allPosts, t);
  }

  /**
   * `deduplicate_and_sample` returns posts of the input, each the first post
   * with its stripped text, that text longer than 30 characters, and no two
   * posts with the same stripped text.
   */
  lemma DedupSampleMembers(allPosts: seq<Post>, maxPosts: int)
    ensures var r := DedupSample(allPosts, maxPosts);
      && (forall p :: p in r ==> p in allPosts && Qualifies(p) && p == FirstWithText(allPosts, StripText(p)))
      && InjectiveOn(r, StripText)
  {
    var vs := UniquePosts(allPosts);
    var sorted := SortDesc(vs, SampleKey);
    var r := DedupSample(allPosts, maxPosts);
    UniquePostsFirst(allPosts);
    SortDescInjective(vs, SampleKey, StripText);
    forall p | p in r ensures p in vs {
      assert p in sorted;
      assert p in multiset(vs);
    }
  }

  /**
   * `deduplicate_and_sample` returns its posts in descending order of
   * `likes + len(text) / 100`; among equal keys, a post whose stripped text
   * occurs first in the input comes first (Python's sort is stable).
   */
  lemma DedupSampleOrder(allPosts: seq<Post>, maxPosts: int)
    ensures SortedDesc(DedupSample(allPosts, maxPosts), SampleKey)
    ensures StableBy(DedupSample(allPosts, maxPosts), SampleKey, p => FirstSeen(allPosts, p))
  {
    var vs := UniquePosts(allPosts);
    var sorted := SortDesc(vs, SampleKey);
    var rank := p => FirstSeen(allPosts, p);
    var r := DedupSample(allPosts, maxPosts);
    assert StableBy(sorted, SampleKey, rank) by {
      UniquePostsInOrder(allPosts);
      SortDescStable(vs, SampleKey, rank);
    }
    assert r == sorted[..|r|];
    SortedSplit(sorted, |r|, SampleKey);
    StablePrefix(sorted, |r|, SampleKey, rank);
  }

  /**
   * `deduplicate_and_sample` returns `max_posts` posts, or one per distinct
   * qualifying stripped text when there are fewer.
   */
  lemma DedupSampleSize(allPosts: seq<Post>, maxPosts: int)
    requires maxPosts >= 0
    ensures |DedupSample(allPosts, maxPosts)| == Min(maxPosts, |set t | t in QualifiedTexts(allPosts)|)
  {
    UniquePostsSize(allPosts);
  }

  /**
   * The sample takes the highest keys: the first post of a qualifying text
   * that is left out has a sample key no higher than that of any post kept.
   */
  lemma DedupSampleTopK(allPosts: seq<Post>, maxPosts: int, t: string)
    requires t in QualifiedTexts(allPosts)
    requires forall p :: p in DedupSample(allPosts, maxPosts) ==> StripText(p) != t
    ensures forall p :: p in DedupSample(allPosts, maxPosts) ==> SampleKey(p) >= SampleKey(FirstWithText(allPosts, t))
  {
    var vs := UniquePosts(allPosts);
    var sorted := SortDesc(vs, SampleKey);
    var r := DedupSample(allPosts, maxPosts);
    var q := FirstWithText(allPosts, t);
    assert q in sorted by {
      UniquePostsComplete(allPosts, t);
      assert q in multiset(sorted);
    }
    assert r == sorted[..|r|];
    SortedPrefixDominates(sorted, |r|, SampleKey, q);
  }

  function ScoreOf(p: Post): int { p.score }

  /** `limit`'s default in the request body. */
  const DefaultLimit: int := 20

  /**
   * `[p for p in top_posts_sorted if p["source"] == src][:limit // 3]` on
   * `top_posts_sorted = sorted(analyzed, key=score_weighted, reverse=True)`.
   * Python's `//` floors, as Dafny's `/` does for a positive divisor.
   */
  function TopFromSource(analyzed: seq<Post>, src: string, limit: int): (r: seq<Post>)
    ensures forall p :: p in r ==> p.source == src
    ensures limit >= 0 ==> |r| <= limit / 3
  {
    PyPrefix(FromSource(SortDesc(analyzed, ScoreOf), src), limit / 3)
  }

  /** Filtering a list sorted by a key keeps it sorted. */
  lemma {:induction false} FromSourceSorted(s: seq<Post>, src: string, key: Post -> int)
    requires SortedDesc(s, key)
    ensures SortedDesc(FromSource(s, src), key)
  {
    if s != [] {
      var init, last := s[..|s| - 1], s[|s| - 1];
      assert s == init + [last];
      assert SortedDesc(init, key);
      FromSourceSorted(init, src, key);
      var f := FromSource(init, src);
      forall a | a in f ensures key(a) >= key(last) {
        var k :| 0 <= k < |init| && init[k] == a;
      }
    }
  }

  /** Filtering a list keeps equal keys in the order it had them. */
  lemma {:induction false} FromSourceStable(s: seq<Post>, src: string, key: Post -> int, rank: Post -> int)
    requires StableBy(s, key, rank)
    ensures StableBy(FromSource(s, src), key, rank)
  {
    if s != [] {
      var init, last := s[..|s| - 1], s[|s| - 1];
      assert s == init + [last];
      StablePrefix(s, |init|, key, rank);
      FromSourceStable(init, src, key, rank);
      var f := FromSource(init, src);
      forall a | a in f && key(a) == key(last) ensures rank(a) < rank(last) {
        var k :| 0 <= k < |init| && init[k] == a;
        assert s[k] == a;
      }
    }
  }

  /**
   * Python's sort is stable and the comprehension keeps its order: posts of
   * one source with equal weighted score come out in the order of the
   * analysed list (`rank` being any measure increasing along it).
   */
  lemma TopFromSourceStable(analyzed: seq<Post>, src: string, limit: int, rank: Post -> int)
    requires forall i, j :: 0 <= i < j < |analyzed| ==> rank(analyzed[i]) < rank(analyzed[j])
    ensures StableBy(TopFromSource(analyzed, src, limit), ScoreOf, rank)
  {
    var sorted := SortDesc(analyzed, ScoreOf);
    var f := FromSource(sorted, src);
    var top := PyPrefix(f, limit / 3);
    assert top == TopFromSource(analyzed, src, limit);
    SortDescStable(analyzed, ScoreOf, rank);
    FromSourceStable(sorted, src, ScoreOf, rank);
    StablePrefix(f, |top|, ScoreOf, rank);
  }

  /** The posts of one source in the response are posts of the analysed list from that source. */
  lemma TopFromSourceMembers(analyzed: seq<Post>, src: string, limit: int)
    ensures forall p :: p in TopFromSource(analyzed, src, limit) ==> p in analyzed && p.source == src
  {
    var sorted := SortDesc(analyzed, ScoreOf);
    forall p | p in TopFromSource(analyzed, src, limit) ensures p in analyzed && p.source == src {
      assert p in FromSource(sorted, src);
      assert p in multiset(sorted);
    }
  }

  /** `limit // 3` posts of the source, or all of them when there are fewer. */
  lemma TopFromSourceSize(analyzed: seq<Post>, src: string, limit: int)
    ensures limit >= 0 ==> |TopFromSource(analyzed, src, limit)| == Min(limit / 3, |FromSource(analyzed, src)|)
    ensures limit < 0 ==> |TopFromSource(analyzed, src, limit)| == Max(0, |FromSource(analyzed, src)| + limit / 3)
  {
    var sorted := SortDesc(analyzed, ScoreOf);
    FromSourcePermutation(sorted, analyzed, src);
    assert |multiset(FromSource(sorted, src))| == |multiset(FromSource(analyzed, src))|;
  }

  /** The posts of `src` that `TopFromSource` leaves out, in sorted order. */
  function LeftOut(analyzed: seq<Post>, src: string, limit: int): seq<Post> {
    var f := FromSource(SortDesc(analyzed, ScoreOf), src);
    f[|TopFromSource(analyzed, src, limit)|..]
  }

  /** The posts of one source come in descending order of weighted score. */
  lemma TopFromSourceSorted(analyzed: seq<Post>, src: string, limit: int)
    ensures SortedDesc(TopFromSource(analyzed, src, limit), ScoreOf)
  {
    var sorted := SortDesc(analyzed, ScoreOf);
    var f := FromSource(sorted, src);
    FromSourceSorted(sorted, src, ScoreOf);
    SortedSplit(f, |TopFromSource(analyzed, src, limit)|, ScoreOf);
  }

  /**
   * The posts of one source kept and those left out are together exactly the
   * posts of that source.
   */
  lemma TopFromSourcePartition(analyzed: seq<Post>, src: string, limit: int)
    ensures multiset(TopFromSource(analyzed, src, limit)) + multiset(LeftOut(analyzed, src, limit))
      == multiset(FromSource(analyzed, src))
  {
    var sorted := SortDesc(analyzed, ScoreOf);
    var f := FromSource(sorted, src);
    var top := PyPrefix(f, limit / 3);
    assert top == TopFromSource(analyzed, src, limit);
    assert f[|top|..] == LeftOut(analyzed, src, limit);
    SplitMultiset(f, |top|);
    assert multiset(f) == multiset(FromSource(analyzed, src)) by {
      FromSourcePermutation(sorted, analyzed, src);
    }
  }

  /** No post of one source left out scores higher than one kept. */
  lemma TopFromSourceTopK(analyzed: seq<Post>, src: string, limit: int)
    ensures forall p, q :: p in TopFromSource(analyzed, src, limit) && q in LeftOut(analyzed, src, limit) ==>
      ScoreOf(p) >= ScoreOf(q)
  {
    var sorted := SortDesc(analyzed, ScoreOf);
    var f := FromSource(sorted, src);
    var n := |TopFromSource(analyzed, src, limit)|;
    assert TopFromSource(analyzed, src, limit) == f[..n];
    assert SortedDesc(f, ScoreOf) by {
      FromSourceSorted(sorted, src, ScoreOf);
    }
    SortedSplit(f, n, ScoreOf);
  }

  /** With the default `limit` of 20, each source contributes at most 6 posts. */
  lemma DefaultTopSize(analyzed: seq<Post>, src: string)
    ensures |TopFromSource(analyzed, src, DefaultLimit)| == Min(6, |FromSource(analyzed, src)|)
  {
    TopFromSourceSize(analyzed, src, DefaultLimit);
  }
}
