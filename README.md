# Social-media mood analyzer: dashboard aggregation and backend list handling

This project models the part of the mood analyzer that turns a list of
classified posts into the numbers the dashboard shows, and the backend's
list handling around the analysis.

It covers the dashboard and the backend as follows.

- **Summary card** (`StatsCard`):
  - the number of posts;
  - the most common emotion (`topEmotion`), with `"-"` for no posts or an empty label;
  - the average likes per named source (reddit, mastodon, youtube), rounded to one decimal, or `0` when the source has no posts.
- **Pie chart** (`EmotionPieChart`):
  - every post adds `likes + 1` to its emotion's weight;
  - emotions below five per cent of the total weight fold into one trailing "Other" slice;
  - each slice gets the label `name: value (pct%)`.
- **Bar chart** (`EmotionBarChart`): the confidences are collected per emotion, and each emotion's mean is rounded to two decimals.
- **Backend** (`Backend`), the helpers in `backend/app.py`:
  - `expand_topic_semantically`, a prefix of seven fixed search variants;
  - `deduplicate_and_sample`: the first post for each stripped text longer than 30 characters, stable-sorted by descending `likes + len(text)/100` and truncated to `max_posts`;
  - the per-source `top_*` lists: the score-sorted posts filtered by source and cut to `limit // 3`.

A JavaScript object or Python dict that is filled in place is modelled as an
insertion-ordered association list (`OrderedMap.Assoc`). Each `reduce` or
`forEach` that fills one is a method with a loop. That method is proved equal
to `Grouping.Accumulate`. `Grouping.AccumulateSpec` then proves, once for all
three charts, that this accumulator has one entry per distinct emotion, in
order of first occurrence, holding the fold over exactly that emotion's posts.

The modules are:
- `Seqs`: first index, duplicate-freedom, Python `s[:n]`;
- `StableSort`: the stable descending sort used by `Array.prototype.sort` and Python's `sorted(..., reverse=True)`;
- `OrderedMap`;
- `Rounding`: `Math.round`, `toFixed` and decimal rendering;
- `Posts`: the post record, sums and source filters;
- `Grouping`;
- `PyStrip`: Python's `str.strip()`;
- `StatsCard`, `EmotionPieChart`, `EmotionBarChart` and `Backend`.

Numbers are held exactly:
- confidences are whole thousandths, because the backend rounds them to three decimals (`backend/app.py:248`);
- averages are whole tenths or hundredths;
- the five per cent threshold `value < total * 0.05` is `20 * value < total`;
- the sort key `likes + len(text) / 100` is compared as `100 * likes + len(text)`;
- `score_weighted` is an abstract integer score, since only its order is used.

## Model

| member | source | states |
|---|---|---|
| Grouping.AccumulateSpec | frontend/src/components/StatsCard.jsx:8-11 | a keyed `reduce` yields one entry per distinct label in first-occurrence order, and each entry is the fold over exactly the posts with that label |
| StatsCard.CountEmotions | frontend/src/components/StatsCard.jsx:8-11 | the counting `reduce` over a mutable accumulator yields the grouped counts |
| StatsCard.EmotionCountsSpec | frontend/src/components/StatsCard.jsx:8-11 | one count per distinct emotion, in first-occurrence order; each equals that emotion's number of posts and is positive; the counts sum to the number of posts |
| StatsCard.TopEmotion | frontend/src/components/StatsCard.jsx:12 | `"-"` when there is no entry; otherwise the label of the first entry of maximal count, with an empty label shown as `"-"` |
| StatsCard.TopEmotionIsMostFrequent | frontend/src/components/StatsCard.jsx:8-12 | the shown emotion has a count no lower than any label's; among equally frequent labels it is the one that occurs first in the input |
| StatsCard.TopIsMax | frontend/src/components/StatsCard.jsx:12 | the first entry of maximal count holds the highest count of any label |
| StatsCard.TopIsFirst | frontend/src/components/StatsCard.jsx:12 | the first entry of maximal count is the label of that count that appears first in the input |
| StatsCard.AverageLikes | frontend/src/components/StatsCard.jsx:19-27 | `0` exactly when the source has no posts; otherwise within half a tenth of the mean likes, with an exact half rounded away from zero |
| StatsCard.Summarize | frontend/src/components/StatsCard.jsx:5-27 | total is the number of posts, plus the top emotion and the three averages; no posts gives `0`, `"-"`, `0`, `0`, `0` |
| StatsCard.SourcesPartition | frontend/src/components/StatsCard.jsx:15-17 | the three source filters are pairwise disjoint, and with the posts of other sources their sizes add up to the total |
| Posts.FromSource | frontend/src/components/StatsCard.jsx:15-17 | the filter keeps exactly the posts of the source and is never longer than the input |
| EmotionPieChart.AccumulateWeights | frontend/src/components/EmotionPieChart.jsx:8-12 | the weighting `reduce` yields the grouped weights |
| EmotionPieChart.EmotionWeightsSpec | frontend/src/components/EmotionPieChart.jsx:8-12 | one weight per distinct emotion in first-occurrence order, each the sum of `likes + 1` over that emotion's posts |
| EmotionPieChart.ToSlices | frontend/src/components/EmotionPieChart.jsx:8-13 | one `{name, value}` per entry, in entry order |
| EmotionPieChart.WeightSlices | frontend/src/components/EmotionPieChart.jsx:8-16 | with non-negative likes, every slice is an input emotion with positive summed weight, every emotion has its slice, and `total` is the weight of all posts |
| EmotionPieChart.SumSlices | frontend/src/components/EmotionPieChart.jsx:16 | the summing loop computes the total of the slice values |
| EmotionPieChart.MainSlices | frontend/src/components/EmotionPieChart.jsx:17-23 | a slice is kept exactly when `20 * value >= total`, so a slice at exactly five per cent is kept |
| EmotionPieChart.SplitSmall | frontend/src/components/EmotionPieChart.jsx:18-23 | the `forEach` computes the kept slices and the folded value |
| EmotionPieChart.FoldPreservesTotal | frontend/src/components/EmotionPieChart.jsx:18-24 | kept values plus the folded value equal the total |
| EmotionPieChart.OtherPresentIff | frontend/src/components/EmotionPieChart.jsx:21-24 | with positive values, the folded value is positive exactly when some slice is folded |
| EmotionPieChart.MainSlicesInOrder | frontend/src/components/EmotionPieChart.jsx:20-23 | kept slices keep their relative order |
| EmotionPieChart.WeightedDistribution | frontend/src/components/EmotionPieChart.jsx:8-25 | the whole computation yields the distribution: accumulate, total, split, then append "Other" when positive |
| EmotionPieChart.MainSlicesFirstOccurrence | frontend/src/components/EmotionPieChart.jsx:8-23 | the slices that keep their own place come in the order in which their emotions first occur among the posts |
| EmotionPieChart.Distribution | frontend/src/components/EmotionPieChart.jsx:8-25 | the drawn slices are emotion slices of the accumulated weights or the one "Other" slice, at most one more than there are emotions |
| EmotionPieChart.DistributionSpec | frontend/src/components/EmotionPieChart.jsx:8-25 | main slices are exactly the emotions with at least five per cent, at their summed weight; "Other" is appended last exactly when some emotion falls below, carrying the rest; the slices sum to the weight of all posts; no posts gives no slices |
| EmotionPieChart.SliceLabel | frontend/src/components/EmotionPieChart.jsx:43 | the label starts with `name: ` and ends with `%)` |
| EmotionPieChart.SliceLabelReadsBack | frontend/src/components/EmotionPieChart.jsx:43 | for a non-negative value, the label is `name: `, the value's decimal digits, ` (`, the rounded percentage's decimal digits, `%)`; the digits read back as the numbers and have no leading zero, as JavaScript prints an integer |
| EmotionPieChart.Percent | frontend/src/components/EmotionPieChart.jsx:43 | the printed percentage is within half a point of the share, and an exact half goes away from zero, as `toFixed(0)` does (1 of 8 prints 13) |
| EmotionPieChart.PercentRange | frontend/src/components/EmotionPieChart.jsx:43 | a share between nothing and everything prints between 0 and 100 |
| EmotionBarChart.CollectConfidences | frontend/src/components/EmotionBarChart.jsx:5-10 | the `forEach` that creates and pushes onto per-emotion lists yields the grouped confidence lists |
| EmotionBarChart.EmotionConfidencesSpec | frontend/src/components/EmotionBarChart.jsx:5-10 | one non-empty list per distinct emotion in first-occurrence order, holding that emotion's confidences in input order |
| EmotionBarChart.ConfidencesCoverPosts | frontend/src/components/EmotionBarChart.jsx:7-10 | each list is as long as its emotion's post count, and the lengths sum to the number of posts |
| EmotionBarChart.MeanHundredths | frontend/src/components/EmotionBarChart.jsx:13-14 | `Math.round(avg * 100)`: the mean in hundredths rounded to nearest, a half rounded up |
| EmotionBarChart.ToBars | frontend/src/components/EmotionBarChart.jsx:12-15 | one bar per entry, in entry order, at that entry's rounded mean |
| EmotionBarChart.BarData | frontend/src/components/EmotionBarChart.jsx:5-15 | one bar per distinct emotion in first-occurrence order, each at the rounded mean of that emotion's confidences; no posts gives no bars |
| EmotionBarChart.ConfidenceBars | frontend/src/components/EmotionBarChart.jsx:5-15 | the component's computation yields `BarData` |
| EmotionBarChart.MeanInRange | frontend/src/components/EmotionBarChart.jsx:13-14 | a rounded mean of values in `[0, 1]` lies in `[0, 1]` |
| EmotionBarChart.BarsInRange | frontend/src/components/EmotionBarChart.jsx:12-15 | with probabilities as confidences, every bar lies in the `[0, 1]` axis domain |
| Rounding.RoundHalfUp | frontend/src/components/EmotionBarChart.jsx:14 | `Math.round(p / q)` is the integer `r` with `p/q - 1/2 < r <= p/q + 1/2` |
| Rounding.RoundHalfAway | frontend/src/components/StatsCard.jsx:19-21 | `toFixed` rounding: within half a unit, an exact half away from zero, same sign as the value |
| Rounding.RoundHalfAwaySymmetric | frontend/src/components/StatsCard.jsx:19-21 | `toFixed` rounding is symmetric about zero |
| Rounding.NatToStringRoundTrip | frontend/src/components/EmotionPieChart.jsx:43 | the decimal rendering of a number reads back as that number |
| Backend.ExpandTopic | backend/app.py:92-102 | `variants[:max_terms]`: `min(max_terms, 7)` terms for a non-negative count, Python's negative-slice length otherwise; term 0 is the topic and term `k` the topic plus the `k`-th suffix |
| Backend.DefaultExpansion | backend/app.py:92-102 | with the default 6, the terms are the topic and its first five variants, and " opinions" is never searched |
| Seqs.PyPrefix | backend/app.py:234 | Python's `s[:n]` is a prefix of length `min(n, len)`, or `len + n` clipped at 0 for negative `n` |
| PyStrip.StripSpec | backend/app.py:229 | `strip()` is the slice that leaves only whitespace outside and neither starts nor ends with whitespace |
| PyStrip.StripIdempotent | backend/app.py:229 | stripping twice strips nothing more |
| PyStrip.StripEmpty | backend/app.py:229 | a text strips to nothing exactly when it is all whitespace |
| Backend.QualifiedTexts | backend/app.py:229-230 | the qualifying texts are exactly the stripped texts longer than 30 characters |
| Backend.UniqueByTextSpec | backend/app.py:227-231 | `unique` has one key per distinct qualifying stripped text, in first-occurrence order, each mapped to the first post with that text |
| Backend.DeduplicateAndSample | backend/app.py:226-234 | the loop, sort and slice yield `DedupSample` |
| Backend.UniquePostsAt | backend/app.py:227-232 | the `i`-th value is the first input post of the `i`-th distinct qualifying text |
| Backend.UniquePostsFirst | backend/app.py:227-232 | the values are qualifying input posts, each the first with its text, no two sharing a text |
| Backend.UniquePostsInOrder | backend/app.py:227-232 | the values come in order of first occurrence of their texts |
| Backend.UniquePostsSize | backend/app.py:227-232 | there is one value per distinct qualifying text |
| Backend.UniquePostsComplete | backend/app.py:227-232 | the first post of every qualifying text is among the values |
| Backend.DedupSampleMembers | backend/app.py:226-234 | every returned post is an unchanged input post, the first with its stripped text, that text over 30 characters, and no two share a stripped text |
| Backend.DedupSample | backend/app.py:226-234 | at most `max_posts` posts, each one of the deduplicated posts |
| Backend.DedupSampleOrder | backend/app.py:233 | the result is non-increasing in `likes + len(text)/100`, compared exactly as `100 * likes + len(text)`; ties of that exact key keep first-occurrence order |
| Backend.DedupSampleSize | backend/app.py:232-234 | the length is `min(max_posts, number of distinct qualifying stripped texts)` |
| Backend.DedupSampleTopK | backend/app.py:233-234 | a qualifying text that is cut off has a first post whose key is no higher than any returned post's |
| StableSort.SortDesc | backend/app.py:233 | the sort returns a descending permutation of its input |
| StableSort.SortDescStable | backend/app.py:233 | elements of equal key keep their input order |
| StableSort.SortDescHead | frontend/src/components/StatsCard.jsx:12 | the head of the sort is the first element of maximal key |
| Backend.TopFromSourceMembers | backend/app.py:280-283 | every `top_<source>` post is an analysed post of that source |
| Backend.TopFromSourceSize | backend/app.py:281-283 | `top_<source>` holds `limit // 3` posts, or all of that source's posts when there are fewer |
| Backend.TopFromSource | backend/app.py:280-283 | `top_<source>` holds only posts of that source, and at most `limit // 3` of them |
| Backend.TopFromSourceSorted | backend/app.py:280-283 | `top_<source>` is in descending order of weighted score |
| Backend.FromSourceStable | backend/app.py:280-283 | the per-source comprehension keeps posts of equal key in the order it was given them |
| Backend.TopFromSourceStable | backend/app.py:280-283 | posts of one source with equal weighted score keep the order of the analysed list, since the sort is stable and the filter and slice keep order |
| Backend.TopFromSourcePartition | backend/app.py:280-283 | the posts kept and those cut off are together exactly the source's posts |
| Backend.TopFromSourceTopK | backend/app.py:280-283 | no post cut off scores higher than a post kept |
| Backend.DefaultTopSize | backend/app.py:281-283 | with the default `limit` of 20 (line 41), each source contributes at most 6 posts |

## Left out

- Network fetching: the Reddit, Mastodon and YouTube clients are left out, as are the asyncio timeouts and `gather`. They are I/O and concurrency.
- The HTTP endpoints `/analyze`, `/trending` and `/health` are left out, beyond the slicing of the analysed list. The same goes for the 404 on an empty sample.
- The emotion classifier, the sentence embeddings, `cos_sim` and `analyze_posts_batch` are left out as foreign model calls. Confidences arrive as whole thousandths; the score is an abstract integer.
- `score_weighted`, `emotion_summary` and `avg_likes` are left out. They use `math.log` and Python's float `round`; only the order of `score_weighted` is used, as `Post.score`.
- StatsCard.AverageLikes: the mean is exact. Binary floating point is not modelled: a sum or mean that a double cannot hold exactly, such as a decimal half like `0.05` stored slightly off, may round the other way. The `-0.0` that `toFixed` prints for a small negative mean is not modelled either. The string/number return type becomes `NoPosts | Tenths`.
- EmotionBarChart.MeanHundredths: the mean of the confidences is exact. Floating-point error in `avg * 100` is not modelled.
- EmotionPieChart.MainSlices: `value < total * 0.05` is taken as `20 * value < total`. This is exact only while the total fits a double's 53-bit integer range.
- EmotionPieChart.SliceLabel: its own contract states only the label's shape; the printed numbers are stated by `SliceLabelReadsBack`, and only for a non-negative value, because a negative value prints a leading `-` that the digit read-back does not cover. The percentage is an exact rounding of `value / total`, while Recharts supplies `percent` as a float. The label geometry (`Math.cos`, `Math.sin`), the colours and all rendering are left out.
- Object key order: a JavaScript object enumerates integer-like keys first, in ascending order. The model assumes emotion labels are not integer-like. It also treats inherited names such as `constructor` as ordinary keys. A missing `top_emotion` is the label "undefined".
- An emotion literally named "Other" would give two slices called "Other"; the model allows this and says nothing about names.
- Negative likes: Reddit scores can be below zero, and the pie chart then behaves as the source does. For example, weights 101 and -4 give a total of 97. The -4 slice is folded, the folded value is -4, so no "Other" slice is pushed and the drawn slices sum to 101, not 97. `Distribution` reproduces this; `DistributionSpec` and `WeightSlices` state their properties only for non-negative likes.
- Backend.DedupSampleOrder: the key `likes + len(text) / 100` is compared exactly as `100 * likes + len(text)`, and the tie clause is about ties of that exact key. Python computes the key in binary floating point, which splits many exact ties at ordinary sizes. For example, likes 0 with a 136-character text gives `1.36`, and likes 1 with a 36-character text gives `1.3599999999999999`. Both have exact key 136, so the model keeps them in first-occurrence order, while Python always puts the likes-0 post first. For such posts the model's order, and which of them survive the `max_posts` cut, can differ from the source's.
- The `PostsList`, `App`, `InputForm` and `ThemeToggle` components are UI state and markup, and are not part of this model. Among them is App's `hasResults` check, which ignores youtube.
- The post `url` and the other fetched fields play no part in the modelled logic and are not carried in `Post`.
