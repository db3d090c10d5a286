/**
 * The summary card of the dashboard: total number of posts, most common
 * emotion, and the average reactions per named source
 * (frontend/src/components/StatsCard.jsx).
 */
module StatsCard {
  import opened Seqs
  import opened StableSort
  import opened OrderedMap
  import opened Rounding
  import opened Posts
  import opened Grouping

  /**
   * A per-source average as displayed: the number `0` when the source has no
   * posts, otherwise the mean number of likes rounded to one decimal, held
   * here as a whole number of tenths.
   */
  datatype Average = NoPosts | Tenths(tenths: int)

  datatype Stats = Stats(total: nat, topEmotion: string, reddit: Average, mastodon: Average, youtube: Average)

  /** The counting step: `(acc[e] || 0) + 1`. */
  function AddOne(n: nat, r: Post): nat { n + 1 }

  /** The `emotionCounts` object after the whole `reduce`. */
  function EmotionCounts(posts: seq<Post>): Assoc<nat> {
    Accumulate(posts, 0, AddOne)
  }

  /**
   * The `reduce` that fills `emotionCounts`: `acc[e] = (acc[e] || 0) + 1`
   * for each post's label `e`, on an object that starts empty.
   */
  method CountEmotions(posts: seq<Post>) returns (counts: Assoc<nat>)
    ensures counts == EmotionCounts(posts)
  {
    counts := [];
    for i := 0 to |posts|
      invariant counts == EmotionCounts(posts[..i])
    {
      var r := posts[i];
      assert posts[..i + 1] == posts[..i] + [r];
      AccumulateSnoc(posts[..i], r, 0, AddOne);
      counts := Put(counts, r.emotion, Get(counts, r.emotion, 0) + 1);
    }
    assert posts[..|posts|] == posts;
  }

  lemma {:induction false} FoldAddOne(ms: seq<Post>)
    ensures Fold(ms, 0, AddOne) == |ms|
  {
    if ms != [] {
      FoldAddOne(ms[..|ms| - 1]);
    }
  }

  /**
   * One entry per distinct emotion, in order of first occurrence; each count
   * is the number of posts with that label, at least 1; together they add up
   * to the number of posts.
   */
  lemma EmotionCountsSpec(posts: seq<Post>)
    ensures Keys(EmotionCounts(posts)) == Distinct(Labels(posts))
    ensures forall i :: 0 <= i < |EmotionCounts(posts)| ==>
      EmotionCounts(posts)[i].1 == Count(posts, EmotionCounts(posts)[i].0) > 0
    ensures SumValues(EmotionCounts(posts)) == |posts|
  {
    var g := EmotionCounts(posts);
    AccumulateSpec(posts, 0, AddOne);
    forall i | 0 <= i < |g| ensures g[i].1 == SumBy(Members(posts, g[i].0), One) == Count(posts, g[i].0) > 0 {
      FoldAddOne(Members(posts, g[i].0));
      SizeIsSumOfOnes(Members(posts, g[i].0));
      MembersNonEmpty(posts, g[i].0);
    }
    GroupedSum(posts, g, One);
    SizeIsSumOfOnes(posts);
  }

  function CountOf(entry: (string, nat)): int { entry.1 }

  /**
   * `Object.entries(counts).sort((a, b) => b[1] - a[1])[0]?.[0] || "-"`:
   * the label of the first entry after a stable sort by descending count,
   * or "-" when there is no entry or the label is the empty string. It is
   * the first entry of maximal count.
   */
  function TopEmotion(counts: Assoc<nat>): (r: string)
    ensures |counts| == 0 ==> r == "-"
    ensures |counts| > 0 ==>
      var i := FirstMaxIndex(counts, CountOf);
      r == if counts[i].0 == "" then "-" else counts[i].0
  {
    if |counts| == 0 then "-"
    else
      SortDescHead(counts, CountOf);
      var top := SortDesc(counts, CountOf)[0].0;
      if top == "" then "-" else top
  }

  /**
   * The displayed top emotion is the label `e` with the highest count; among
   * labels with that count it is the one that occurs first in the input.
   * Only an empty label is displayed as "-".
   */
  lemma {:induction false} TopEmotionIsMostFrequent(posts: seq<Post>)
    requires |posts| > 0
    ensures exists e :: (e in Labels(posts)
      && TopEmotion(EmotionCounts(posts)) == (if e == "" then "-" else e)
      && (forall x :: Count(posts, x) <= Count(posts, e))
      && (forall x :: x in Labels(posts) && x != e && Count(posts, x) == Count(posts, e) ==>
            IndexOf(Labels(posts), e) < IndexOf(Labels(posts), x)))
  {
    var g := EmotionCounts(posts);
    assert |g| > 0 by {
      EmotionCountsSpec(posts);
      assert posts[0].emotion in Labels(posts);
    }
    var i := FirstMaxIndex(g, CountOf);
    TopIsMax(posts, i);
    TopIsFirst(posts, i);
  }

  /** The entry of maximal count holds the highest `Count` of any label. */
  lemma TopIsMax(posts: seq<Post>, i: nat)
    requires |EmotionCounts(posts)| > 0 && i == FirstMaxIndex(EmotionCounts(posts), CountOf)
    ensures forall x :: Count(posts, x) <= Count(posts, EmotionCounts(posts)[i].0)
  {
    var g := EmotionCounts(posts);
    var d := Distinct(Labels(posts));
    EmotionCountsSpec(posts);
    forall x ensures Count(posts, x) <= Count(posts, g[i].0) {
      if x in Labels(posts) {
        var j := IndexOf(d, x);
        assert g[j].0 == x && CountOf(g[j]) <= CountOf(g[i]);
      } else {
        MembersNonEmpty(posts, x);
      }
    }
  }

  /** The first entry of maximal count is the label of that count that occurs first in the input. */
  lemma TopIsFirst(posts: seq<Post>, i: nat)
    requires |EmotionCounts(posts)| > 0 && i == FirstMaxIndex(EmotionCounts(posts), CountOf)
    ensures EmotionCounts(posts)[i].0 in Labels(posts)
    ensures var e := EmotionCounts(posts)[i].0;
      forall x :: x in Labels(posts) && x != e && Count(posts, x) == Count(posts, e) ==>
        IndexOf(Labels(posts), e) < IndexOf(Labels(posts), x)
  {
    var g := EmotionCounts(posts);
    var d := Distinct(Labels(posts));
    EmotionCountsSize(posts);
    EmotionCountAt(posts, i);
    var e := g[i].0;
    assert e in d;
    forall x | x in Labels(posts) && x != e && Count(posts, x) == Count(posts, e)
      ensures IndexOf(Labels(posts), e) < IndexOf(Labels(posts), x)
    {
      assert x in d;
      var j := IndexOf(d, x);
      EmotionCountAt(posts, j);
      assert CountOf(g[j]) == CountOf(g[i]);
      assert i < j;
      DistinctFirstOccurrence(Labels(posts), i, j);
    }
  }

  lemma EmotionCountsSize(posts: seq<Post>)
    ensures |EmotionCounts(posts)| == |Distinct(Labels(posts))|
  {
    EmotionCountsSpec(posts);
  }

  /** The `j`-th entry counts the `j`-th distinct label. */
  lemma EmotionCountAt(posts: seq<Post>, j: nat)
    requires j < |EmotionCounts(posts)|
    ensures j < |Distinct(Labels(posts))|
    ensures EmotionCounts(posts)[j].0 == Distinct(Labels(posts))[j]
    ensures CountOf(EmotionCounts(posts)[j]) == Count(posts, EmotionCounts(posts)[j].0)
  {
    var g := EmotionCounts(posts);
    EmotionCountsSpec(posts);
    assert Keys(g)[j] == g[j].0;
  }

  /**
   * `(sum / n).toFixed(1)` when the source has `n > 0` posts, `0` otherwise:
   * the mean lies within half a tenth of the result, and a mean exactly half
   * way between two tenths is rounded away from zero.
   */
  function AverageLikes(ps: seq<Post>): (a: Average)
    ensures a == NoPosts <==> |ps| == 0
    ensures a.Tenths? ==> 2 * Abs(a.tenths * |ps| - 10 * SumBy(ps, Likes)) <= |ps|
    ensures a.Tenths? && 2 * Abs(a.tenths * |ps| - 10 * SumBy(ps, Likes)) == |ps| ==>
      Abs(a.tenths * |ps|) > Abs(10 * SumBy(ps, Likes))
  {
    if |ps| == 0 then NoPosts else Tenths(RoundHalfAway(10 * SumBy(ps, Likes), |ps|))
  }

  /** The whole card; the counting `reduce` is the only loop. */
  method Summarize(posts: seq<Post>) returns (s: Stats)
    ensures s.total == |posts|
    ensures s.topEmotion == TopEmotion(EmotionCounts(posts))
    ensures s.reddit == AverageLikes(FromSource(posts, "reddit"))
    ensures s.mastodon == AverageLikes(FromSource(posts, "mastodon"))
    ensures s.youtube == AverageLikes(FromSource(posts, "youtube"))
    ensures |posts| == 0 ==> s == Stats(0, "-", NoPosts, NoPosts, NoPosts)
  {
    var counts := CountEmotions(posts);
    var topEmotion := TopEmotion(counts);
    var redditPosts := FromSource(posts, "reddit");
    var mastodonPosts := FromSource(posts, "mastodon");
    var youtubePosts := FromSource(posts, "youtube");
    s := Stats(|posts|, topEmotion, AverageLikes(redditPosts), AverageLikes(mastodonPosts), AverageLikes(youtubePosts));
  }

  /** Posts whose source is none of the three named ones. */
  function FromOtherSources(posts: seq<Post>): (r: seq<Post>)
    ensures forall q :: q in r <==> q in posts && q.source !in {"reddit", "mastodon", "youtube"}
  {
    if posts == [] then []
    else
      var init, last := posts[..|posts| - 1], posts[|posts| - 1];
      assert posts == init + [last];
      var r := FromOtherSources(init);
      if last.source !in {"reddit", "mastodon", "youtube"} then r + [last] else r
  }

  /**
   * The three source filters and the remaining posts split the input: no
   * post is in two filters, and their sizes add up to the total, so the
   * three averaged lists together have at most `total` posts.
   */
  lemma {:induction false} SourcesPartition(posts: seq<Post>)
    ensures forall q :: q in FromSource(posts, "reddit") ==> q !in FromSource(posts, "mastodon") && q !in FromSource(posts, "youtube")
    ensures forall q :: q in FromSource(posts, "mastodon") ==> q !in FromSource(posts, "youtube")
    ensures |FromSource(posts, "reddit")| + |FromSource(posts, "mastodon")| + |FromSource(posts, "youtube")|
      + |FromOtherSources(posts)| == |posts|
  {
    if posts != [] {
      var init, last := posts[..|posts| - 1], posts[|posts| - 1];
      assert posts == init + [last];
      SourcesPartition(init);
      FromSourceSnoc(init, last, "reddit");
      FromSourceSnoc(init, last, "mastodon");
      FromSourceSnoc(init, last, "youtube");
    }
  }
}
