/**
 * The average classifier confidence per emotion
 * (frontend/src/components/EmotionBarChart.jsx): the confidences are
 * collected per emotion, then each list is averaged and rounded to two
 * decimals.
 */
module EmotionBarChart {
  import opened Seqs
  import opened OrderedMap
  import opened Rounding
  import opened Posts
  import opened Grouping

  /**
   * One bar: the emotion and `Math.round(avg * 100) / 100` of its average
   * confidence, held as a whole number of hundredths.
   */
  datatype Bar = Bar(emotion: string, avgConfidence: int)

  /** The collecting step: `emotionStats[e].push(top_confidence)`. */
  function AppendConfidence(cs: seq<nat>, r: Post): seq<nat> { cs + [r.confidence] }

  /** The confidences of a group of posts, in input order. */
  function Confidences(ms: seq<Post>): (cs: seq<nat>)
    ensures |cs| == |ms|
    ensures forall k :: 0 <= k < |ms| ==> cs[k] == ms[k].confidence
  {
    seq(|ms|, k requires 0 <= k < |ms| => ms[k].confidence)
  }

  /** `emotionStats` after the `forEach`. */
  function EmotionConfidences(posts: seq<Post>): Assoc<seq<nat>> {
    Accumulate(posts, [], AppendConfidence)
  }

  /**
   * The `forEach`: create an empty list for a label seen for the first time,
   * then push the post's confidence onto its label's list.
   */
  method CollectConfidences(posts: seq<Post>) returns (stats: Assoc<seq<nat>>)
    ensures stats == EmotionConfidences(posts)
  {
    stats := [];
    for i := 0 to |posts|
      invariant stats == EmotionConfidences(posts[..i])
    {
      var r := posts[i];
      assert posts[..i + 1] == posts[..i] + [r];
      AccumulateSnoc(posts[..i], r, [], AppendConfidence);
      AccumulateSpec(posts[..i], [], AppendConfidence);
      ghost var before := stats;
      if r.emotion !in Keys(stats) {
        stats := Put(stats, r.emotion, []);
        GetPut(before, r.emotion, [], r.emotion, []);
        PutPut(before, r.emotion, [], Get(stats, r.emotion, []) + [r.confidence]);
      }
      stats := Put(stats, r.emotion, Get(stats, r.emotion, []) + [r.confidence]);
    }
    assert posts[..|posts|] == posts;
  }

  lemma {:induction false} FoldAppendConfidence(ms: seq<Post>)
    ensures Fold(ms, [], AppendConfidence) == Confidences(ms)
  {
    if ms != [] {
      FoldAppendConfidence(ms[..|ms| - 1]);
    }
  }

  /**
   * `emotionStats` groups the confidences by emotion: one list per distinct
   * emotion in order of first occurrence, holding the confidences of the
   * posts with that emotion in input order, never empty.
   */
  lemma EmotionConfidencesSpec(posts: seq<Post>)
    ensures Keys(EmotionConfidences(posts)) == Distinct(Labels(posts))
    ensures forall i :: 0 <= i < |EmotionConfidences(posts)| ==>
      && EmotionConfidences(posts)[i].1 == Confidences(Members(posts, EmotionConfidences(posts)[i].0))
      && |EmotionConfidences(posts)[i].1| > 0
  {
    AccumulateSpec(posts, [], AppendConfidence);
    var g := EmotionConfidences(posts);
    forall i | 0 <= i < |g| ensures g[i].1 == Confidences(Members(posts, g[i].0)) && |g[i].1| > 0 {
      FoldAppendConfidence(Members(posts, g[i].0));
      assert g[i].0 in Distinct(Labels(posts));
      MembersNonEmpty(posts, g[i].0);
    }
  }

  /** The number of confidences collected under each emotion. */
  function GroupSizes(stats: Assoc<seq<nat>>): (sizes: Assoc<int>)
    ensures |sizes| == |stats|
    ensures forall i :: 0 <= i < |stats| ==> sizes[i] == (stats[i].0, |stats[i].1|)
  {
    seq(|stats|, i requires 0 <= i < |stats| => (stats[i].0, |stats[i].1|))
  }

  /**
   * Every post's confidence lands in exactly one list: each list is as long as
   * its emotion's number of posts, and the lengths add up to the number of posts.
   */
  lemma ConfidencesCoverPosts(posts: seq<Post>)
    ensures forall i :: 0 <= i < |EmotionConfidences(posts)| ==>
      |EmotionConfidences(posts)[i].1| == Count(posts, EmotionConfidences(posts)[i].0)
    ensures SumValues(GroupSizes(EmotionConfidences(posts))) == |posts|
  {
    var g := EmotionConfidences(posts);
    var sizes := GroupSizes(g);
    EmotionConfidencesSpec(posts);
    assert Keys(sizes) == Keys(g);
    forall i | 0 <= i < |sizes| ensures sizes[i].1 == SumBy(Members(posts, sizes[i].0), One) {
      SizeIsSumOfOnes(Members(posts, sizes[i].0));
    }
    GroupedSum(posts, sizes, One);
    SizeIsSumOfOnes(posts);
  }

  /** The sum of a list of confidences, as a `reduce` from 0. */
  function SumNat(cs: seq<nat>): nat {
    if cs == [] then 0 else SumNat(cs[..|cs| - 1]) + cs[|cs| - 1]
  }

  /**
   * `Math.round(avg * 100)` for the mean `avg` of the confidences in
   * thousandths: the integer `h` with `avg * 100 - 1/2 < h <= avg * 100 + 1/2`,
   * where `avg * 100 = SumNat(cs) / (10 * |cs|)`.
   */
  function MeanHundredths(cs: seq<nat>): (h: int)
    requires |cs| > 0
    ensures 2 * (h * (10 * |cs|) - SumNat(cs)) <= 10 * |cs|
    ensures -(10 * |cs|) < 2 * (h * (10 * |cs|) - SumNat(cs))
  {
    RoundHalfUp(SumNat(cs), 10 * |cs|)
  }

  /** `Object.entries(emotionStats).map(...)`: one bar per entry, in entry order. */
  function ToBars(stats: Assoc<seq<nat>>): (data: seq<Bar>)
    requires forall i :: 0 <= i < |stats| ==> |stats[i].1| > 0
    ensures |data| == |stats|
    ensures forall i :: 0 <= i < |stats| ==> data[i] == Bar(stats[i].0, MeanHundredths(stats[i].1))
  {
    seq(|stats|, i requires 0 <= i < |stats| => Bar(stats[i].0, MeanHundredths(stats[i].1)))
  }

  /**
   * The bars drawn for `posts`: one per distinct emotion, in order of first
   * occurrence, each at the rounded mean confidence of that emotion's posts.
   */
  function BarData(posts: seq<Post>): (data: seq<Bar>)
    ensures |data| == |Distinct(Labels(posts))|
    ensures posts == [] ==> data == []
    ensures forall i :: 0 <= i < |data| ==>
      && data[i].emotion == Distinct(Labels(posts))[i]
      && Count(posts, data[i].emotion) > 0
      && data[i].avgConfidence == MeanHundredths(Confidences(Members(posts, data[i].emotion)))
  {
    EmotionConfidencesSpec(posts);
    ToBars(EmotionConfidences(posts))
  }

  /** The component's computation of `data`. */
  method ConfidenceBars(posts: seq<Post>) returns (data: seq<Bar>)
    ensures data == BarData(posts)
  {
    var stats := CollectConfidences(posts);
    EmotionConfidencesSpec(posts);
    data := ToBars(stats);
  }

  lemma {:induction false} SumNatBound(cs: seq<nat>)
    requires forall k :: 0 <= k < |cs| ==> cs[k] <= 1000
    ensures SumNat(cs) <= 1000 * |cs|
  {
    if cs != [] {
      SumNatBound(cs[..|cs| - 1]);
    }
  }

  /** A rounded mean of values between 0 and 1000 thousandths lies between 0 and 100 hundredths. */
  lemma MeanInRange(cs: seq<nat>)
    requires |cs| > 0
    requires forall k :: 0 <= k < |cs| ==> cs[k] <= 1000
    ensures 0 <= MeanHundredths(cs) <= 100
  {
    var h, q := MeanHundredths(cs), 10 * |cs|;
    SumNatBound(cs);
    assert SumNat(cs) <= 100 * q;
    if h >= 101 {
      MulMonotone(101, h, q);
    }
    if h <= -1 {
      MulMonotone(h, -1, q);
    }
  }

  /**
   * With every confidence a probability (at most 1000 thousandths), every bar
   * stays inside the chart's `[0, 1]` axis.
   */
  lemma BarsInRange(posts: seq<Post>)
    requires forall q :: q in posts ==> q.confidence <= 1000
    ensures forall b :: b in BarData(posts) ==> 0 <= b.avgConfidence <= 100
  {
    var data := BarData(posts);
    forall b | b in data ensures 0 <= b.avgConfidence <= 100 {
      var i :| 0 <= i < |data| && data[i] == b;
      var ms := Members(posts, b.emotion);
      var cs := Confidences(ms);
      assert |cs| > 0 && b.avgConfidence == MeanHundredths(cs);
      forall k | 0 <= k < |cs| ensures cs[k] <= 1000 {
        assert ms[k] in ms;
      }
      MeanInRange(cs);
    }
  }
}
