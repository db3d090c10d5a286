/**
 * The reaction-weighted emotion distribution of the dashboard
 * (frontend/src/components/EmotionPieChart.jsx): one slice per emotion whose
 * weight is the number of reactions plus one per post, slices under five per
 * cent of the total folded into a single "Other" slice.
 */
module EmotionPieChart {
  import opened Seqs
  import opened OrderedMap
  import opened Rounding
  import opened Posts
  import opened Grouping

  datatype Slice = Slice(name: string, value: int)

  /** A post counts once, plus once per reaction. */
  function PostWeight(p: Post): int { p.likes + 1 }

  function GroupWeight(group: seq<Post>): int { SumBy(group, PostWeight) }

  /** The weighting step: `(acc[e] || 0) + (likes + 1)`. */
  function AddWeight(w: int, r: Post): int { w + PostWeight(r) }

  /** The accumulator object after the weighting `reduce`, from `{}`. */
  function EmotionWeights(posts: seq<Post>): Assoc<int> {
    Accumulate(posts, 0, AddWeight)
  }

  /** `Object.entries(m).map(([name, value]) => ({ name, value }))`. */
  function ToSlices(m: Assoc<int>): (r: seq<Slice>)
    ensures |r| == |m|
    ensures forall i :: 0 <= i < |m| ==> r[i] == Slice(m[i].0, m[i].1)
  {
    seq(|m|, i requires 0 <= i < |m| => Slice(m[i].0, m[i].1))
  }

  /** The sum of the slice values. */
  function Total(data: seq<Slice>): int {
    if data == [] then 0 else Total(data[..|data| - 1]) + data[|data| - 1].value
  }

  lemma TotalSnoc(data: seq<Slice>, s: Slice)
    ensures Total(data + [s]) == Total(data) + s.value
  {
    assert (data + [s])[..|data|] == data;
  }

  /**
   * A slice keeps its own place unless its value is below five per cent of
   * the total; `value < total * 0.05` is `20 * value < total`.
   */
  predicate IsMain(s: Slice, total: int) {
    20 * s.value >= total
  }

  /** The slices that keep their own place, in their original order. */
  function MainSlices(data: seq<Slice>, total: int): (r: seq<Slice>)
    ensures |r| <= |data|
    ensures forall s :: s in r <==> s in data && IsMain(s, total)
  {
    if data == [] then []
    else
      var init, last := data[..|data| - 1], data[|data| - 1];
      assert data == init + [last];
      var r := MainSlices(init, total);
      if IsMain(last, total) then r + [last] else r
  }

  /** The summed value of the slices that are folded into "Other". */
  function OtherValue(data: seq<Slice>, total: int): int {
    if data == [] then 0
    else
      var init, last := data[..|data| - 1], data[|data| - 1];
      OtherValue(init, total) + (if IsMain(last, total) then 0 else last.value)
  }

  /** The `forEach` split, followed by the conditional "Other" slice. */
  function FoldSmall(data: seq<Slice>): seq<Slice> {
    var total := Total(data);
    var other := OtherValue(data, total);
    MainSlices(data, total) + (if other > 0 then [Slice("Other", other)] else [])
  }

  /**
   * The slices the chart draws for `posts`: some of the emotion slices, in
   * their order, and at most one more, named "Other".
   */
  function Distribution(posts: seq<Post>): (r: seq<Slice>)
    ensures |r| <= |EmotionWeights(posts)| + 1
    ensures forall s :: s in r ==> s in ToSlices(EmotionWeights(posts)) || s.name == "Other"
  {
    FoldSmall(ToSlices(EmotionWeights(posts)))
  }

  /** The weighting `reduce`: `acc[e] = (acc[e] || 0) + (likes + 1)`. */
  method AccumulateWeights(posts: seq<Post>) returns (acc: Assoc<int>)
    ensures acc == EmotionWeights(posts)
  {
    acc := [];
    for i := 0 to |posts|
      invariant acc == EmotionWeights(posts[..i])
    {
      var r := posts[i];
      assert posts[..i + 1] == posts[..i] + [r];
      AccumulateSnoc(posts[..i], r, 0, AddWeight);
      acc := Put(acc, r.emotion, AddWeight(Get(acc, r.emotion, 0), r));
    }
    assert posts[..|posts|] == posts;
  }

  lemma {:induction false} FoldAddWeight(ms: seq<Post>)
    ensures Fold(ms, 0, AddWeight) == GroupWeight(ms)
  {
    if ms != [] {
      FoldAddWeight(ms[..|ms| - 1]);
    }
  }

  /**
   * The weighting `reduce` groups the posts by emotion: one entry per distinct
   * emotion in order of first occurrence, holding the summed weight of the
   * posts with that emotion.
   */
  lemma EmotionWeightsSpec(posts: seq<Post>)
    ensures Keys(EmotionWeights(posts)) == Distinct(Labels(posts))
    ensures Valid(EmotionWeights(posts))
    ensures forall i :: 0 <= i < |EmotionWeights(posts)| ==>
      EmotionWeights(posts)[i].1 == GroupWeight(Members(posts, EmotionWeights(posts)[i].0))
  {
    AccumulateSpec(posts, 0, AddWeight);
    var g := EmotionWeights(posts);
    forall i | 0 <= i < |g| ensures g[i].1 == GroupWeight(Members(posts, g[i].0)) {
      FoldAddWeight(Members(posts, g[i].0));
    }
  }

  /** `data.reduce((sum, d) => sum + d.value, 0)`. */
  method SumSlices(data: seq<Slice>) returns (total: int)
    ensures total == Total(data)
  {
    total := 0;
    for i := 0 to |data|
      invariant total == Total(data[..i])
    {
      assert data[..i + 1] == data[..i] + [data[i]];
      total := total + data[i].value;
    }
    assert data[..|data|] == data;
  }

  /** The `forEach` that splits the slices at five per cent of `total`. */
  method SplitSmall(data: seq<Slice>, total: int) returns (mainSlices: seq<Slice>, otherValue: int)
    ensures mainSlices == MainSlices(data, total)
    ensures otherValue == OtherValue(data, total)
  {
    mainSlices := [];
    otherValue := 0;
    for i := 0 to |data|
      invariant mainSlices == MainSlices(data[..i], total)
      invariant otherValue == OtherValue(data[..i], total)
    {
      var d := data[i];
      assert data[..i + 1] == data[..i] + [d];
      assert (data[..i] + [d])[..i] == data[..i];
      if 20 * d.value < total {
        otherValue := otherValue + d.value;
      } else {
        mainSlices := mainSlices + [d];
      }
    }
    assert data[..|data|] == data;
  }

  /** The component's computation of the drawn `data`. */
  method WeightedDistribution(posts: seq<Post>) returns (data: seq<Slice>)
    ensures data == Distribution(posts)
  {
    var acc := AccumulateWeights(posts);
    var entries := ToSlices(acc);
    var total := SumSlices(entries);
    var mainSlices, otherValue := SplitSmall(entries, total);
    if otherValue > 0 {
      mainSlices := mainSlices + [Slice("Other", otherValue)];
    }
    data := mainSlices;
  }

  /** The kept slices and the folded value together account for the whole total. */
  lemma {:induction false} FoldPreservesTotal(data: seq<Slice>, total: int)
    ensures Total(MainSlices(data, total)) + OtherValue(data, total) == Total(data)
  {
    if data != [] {
      var init, last := data[..|data| - 1], data[|data| - 1];
      assert data == init + [last];
      FoldPreservesTotal(init, total);
      if IsMain(last, total) {
        TotalSnoc(MainSlices(init, total), last);
      }
    }
  }

  /** With no negative values, the folded value is positive exactly when some slice is folded. */
  lemma {:induction false} OtherPresentIff(data: seq<Slice>, total: int)
    requires forall s :: s in data ==> s.value > 0
    ensures OtherValue(data, total) >= 0
    ensures OtherValue(data, total) > 0 <==> exists s :: s in data && !IsMain(s, total)
  {
    if data != [] {
      var init, last := data[..|data| - 1], data[|data| - 1];
      assert data == init + [last];
      OtherPresentIff(init, total);
    }
  }

  /** The kept slices keep their relative order. */
  lemma {:induction false} MainSlicesInOrder(data: seq<Slice>, total: int, i: nat, j: nat)
    requires NoDuplicates(data)
    requires i < j < |MainSlices(data, total)|
    ensures IndexOf(data, MainSlices(data, total)[i]) < IndexOf(data, MainSlices(data, total)[j])
  {
    var init, last := data[..|data| - 1], data[|data| - 1];
    assert data == init + [last];
    var r := MainSlices(init, total);
    var a, b := MainSlices(data, total)[i], MainSlices(data, total)[j];
    assert NoDuplicates(init) by {
      forall x, y | 0 <= x < y < |init| ensures init[x] != init[y] {
        assert init[x] == data[x] && init[y] == data[y];
      }
    }
    IndexOfSnoc(init, last, a);
    IndexOfSnoc(init, last, b);
    if j < |r| {
      MainSlicesInOrder(init, total, i, j);
    } else {
      assert a in r && b == last;
      assert last !in init;
    }
  }

  /** The slices that keep their own place come in first-occurrence order of their emotions. */
  lemma MainSlicesFirstOccurrence(posts: seq<Post>, i: nat, j: nat)
    requires i < j < |MainSlices(ToSlices(EmotionWeights(posts)), Total(ToSlices(EmotionWeights(posts))))|
    ensures var data := ToSlices(EmotionWeights(posts));
      var main := MainSlices(data, Total(data));
      && main[i].name in Labels(posts) && main[j].name in Labels(posts)
      && IndexOf(Labels(posts), main[i].name) < IndexOf(Labels(posts), main[j].name)
  {
    var g := EmotionWeights(posts);
    var data := ToSlices(g);
    var main := MainSlices(data, Total(data));
    EmotionWeightsSpec(posts);
    SlicesNoDuplicates(g);
    MainSlicesInOrder(data, Total(data), i, j);
    var x, y := IndexOf(data, main[i]), IndexOf(data, main[j]);
    assert main[i].name == Keys(g)[x] == Distinct(Labels(posts))[x];
    assert main[j].name == Keys(g)[y] == Distinct(Labels(posts))[y];
    DistinctFirstOccurrence(Labels(posts), x, y);
  }

  lemma {:induction false} TotalOfSlices(m: Assoc<int>)
    ensures Total(ToSlices(m)) == SumValues(m)
  {
    if m != [] {
      var init := m[..|m| - 1];
      assert m == init + [m[|m| - 1]];
      assert ToSlices(m)[..|m| - 1] == ToSlices(init);
      TotalOfSlices(init);
      SumValuesSnoc(init, m[|m| - 1].0, m[|m| - 1].1);
    }
  }

  lemma {:induction false} WeightAtLeastSize(ps: seq<Post>)
    requires forall q :: q in ps ==> q.likes >= 0
    ensures GroupWeight(ps) >= |ps|
  {
    if ps != [] {
      var init := ps[..|ps| - 1];
      assert ps == init + [ps[|ps| - 1]];
      WeightAtLeastSize(init);
    }
  }

  lemma SlicesNoDuplicates(m: Assoc<int>)
    requires Valid(m)
    ensures NoDuplicates(ToSlices(m))
  {
    var r := ToSlices(m);
    forall x, y | 0 <= x < y < |r| ensures r[x] != r[y] {
      assert Keys(m)[x] != Keys(m)[y];
    }
  }

  /**
   * What the chart draws for a list of posts with no negative reaction count:
   *  - every slice but "Other" is an emotion of the input carrying the summed
   *    weight of its posts, at least five per cent of the weight of all posts;
   *  - every emotion with at least five per cent of the weight has its slice;
   *  - an "Other" slice is appended exactly when some emotion has less, and it
   *    carries their summed weight;
   *  - the slices add up to the weight of all posts;
   *  - no post, no slice.
   */
  lemma DistributionSpec(posts: seq<Post>)
    requires forall q :: q in posts ==> q.likes >= 0
    ensures var data := ToSlices(EmotionWeights(posts));
      var total := Total(data);
      var main := MainSlices(data, total);
      && total == SumBy(posts, PostWeight)
      && (forall s :: s in main ==>
            s.name in Labels(posts) && s.value == GroupWeight(Members(posts, s.name)) && 20 * s.value >= total)
      && (forall e :: e in Labels(posts) && 20 * GroupWeight(Members(posts, e)) >= total ==>
            Slice(e, GroupWeight(Members(posts, e))) in main)
      && (Distribution(posts) == main <==> forall e :: e in Labels(posts) ==> 20 * GroupWeight(Members(posts, e)) >= total)
      && (Distribution(posts) != main ==> Distribution(posts) == main + [Slice("Other", total - Total(main))])
      && Total(Distribution(posts)) == SumBy(posts, PostWeight)
      && (posts == [] ==> Distribution(posts) == [])
  {
    var data := ToSlices(EmotionWeights(posts));
    var total := Total(data);
    var main := MainSlices(data, total);
    WeightSlices(posts);
    OtherPresentIff(data, total);
    FoldPreservesTotal(data, total);
    assert (exists s :: s in data && !IsMain(s, total))
      <==> (exists e :: e in Labels(posts) && 20 * GroupWeight(Members(posts, e)) < total) by {
      forall e | e in Labels(posts) && 20 * GroupWeight(Members(posts, e)) < total
        ensures exists s :: s in data && !IsMain(s, total)
      {
        assert Slice(e, GroupWeight(Members(posts, e))) in data;
      }
    }
    if OtherValue(data, total) > 0 {
      TotalSnoc(main, Slice("Other", OtherValue(data, total)));
    }
  }

  /**
   * The slices before folding: one per emotion of the input, each carrying the
   * positive summed weight of that emotion's posts, together the weight of
   * all posts.
   */
  lemma WeightSlices(posts: seq<Post>)
    requires forall q :: q in posts ==> q.likes >= 0
    ensures var data := ToSlices(EmotionWeights(posts));
      && Total(data) == SumBy(posts, PostWeight)
      && (forall s :: s in data ==>
            s.value > 0 && s.name in Labels(posts) && s.value == GroupWeight(Members(posts, s.name)))
      && (forall e :: e in Labels(posts) ==> Slice(e, GroupWeight(Members(posts, e))) in data)
  {
    var g := EmotionWeights(posts);
    var data := ToSlices(g);
    EmotionWeightsSpec(posts);
    assert Total(data) == SumBy(posts, PostWeight) by {
      TotalOfSlices(g);
      GroupedSum(posts, g, PostWeight);
    }
    forall s | s in data ensures s.value > 0 && s.name in Labels(posts) && s.value == GroupWeight(Members(posts, s.name)) {
      var i :| 0 <= i < |data| && data[i] == s;
      assert g[i].0 in Keys(g);
      MembersNonEmpty(posts, s.name);
      WeightAtLeastSize(Members(posts, s.name));
    }
    forall e | e in Labels(posts)
      ensures Slice(e, GroupWeight(Members(posts, e))) in data
    {
      var i := IndexOf(Keys(g), e);
      assert data[i] == Slice(e, GroupWeight(Members(posts, e)));
    }
  }

  /**
   * `${name}: ${value} (${(percent * 100).toFixed(0)}%)` with `percent` the
   * slice's share of `total`, the sum of the drawn values.
   */
  function SliceLabel(s: Slice, total: int): (text: string)
    requires total > 0
    ensures |text| > |s.name| + 2 && text[..|s.name| + 2] == s.name + ": "
    ensures text[|text| - 2..] == "%)"
  {
    s.name + ": " + IntToString(s.value) + " (" + IntToString(Percent(s.value, total)) + "%)"
  }

  /**
   * A slice of non-negative value is labelled with its name, then its value
   * and its whole percentage in decimal digits that read back as those numbers.
   */
  lemma SliceLabelReadsBack(s: Slice, total: int)
    requires total > 0 && s.value >= 0
    ensures exists a, b ::
              && |a| > 0 && |b| > 0 && AllDigits(a) && AllDigits(b)
              && (a[0] == '0' ==> a == "0") && (b[0] == '0' ==> b == "0")
              && DigitsValue(a) == s.value && DigitsValue(b) == Percent(s.value, total)
              && SliceLabel(s, total) == s.name + ": " + a + " (" + b + "%)"
  {
    var pct := Percent(s.value, total);
    var a, b := NatToString(s.value), NatToString(pct);
    NatToStringRoundTrip(s.value);
    NatToStringRoundTrip(pct);
    assert SliceLabel(s, total) == s.name + ": " + a + " (" + b + "%)";
  }

  /** The whole percentage nearest to the share, a half away from zero. */
  function Percent(value: int, total: int): (pct: int)
    requires total > 0
    ensures 2 * Abs(pct * total - 100 * value) <= total
    ensures 2 * Abs(pct * total - 100 * value) == total ==> Abs(pct * total) > Abs(100 * value)
  {
    RoundHalfAway(100 * value, total)
  }

  /** A share between nothing and everything is printed between 0% and 100%. */
  lemma PercentRange(value: int, total: int)
    requires 0 <= value <= total && total > 0
    ensures 0 <= Percent(value, total) <= 100
  {
    var pct := Percent(value, total);
    assert 2 * (pct * total) <= 201 * total;
    if pct >= 101 {
      MulMonotone(101, pct, total);
    }
  }
}
