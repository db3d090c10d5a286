/**
 * The post record shared by the backend and the dashboard.
 */
module Posts {

  /**
   * One post. `text`, `likes` and `source` come from the fetchers; `emotion`
   * (`top_emotion`), `confidence` (`top_confidence`) and `score`
   * (`score_weighted`) are attached by the analysis step.
   *  - `likes` is an integer and may be negative (a Reddit score can be).
   *  - `confidence` is in thousandths: the backend rounds the classifier's
   *    score to three decimals, so `0.734` is `734`.
   *  - `score` stands for the floating-point `score_weighted`; only its order
   *    is used, so any integer with the same order serves.
   *  - A post without `top_emotion` carries the label "undefined", the key
   *    JavaScript uses when it indexes an object with `undefined`.
   */
  datatype Post = Post(text: string, likes: int, source: string, emotion: string, confidence: nat, score: int)

  function Likes(p: Post): int { p.likes }

  /** The sum of `w` over `ps`, as a left-to-right `reduce` with initial value 0. */
  function SumBy(ps: seq<Post>, w: Post -> int): int {
    if ps == [] then 0 else SumBy(ps[..|ps| - 1], w) + w(ps[|ps| - 1])
  }

  /** Every post weighs 1. */
  function One(p: Post): int { 1 }

  /** Summing 1 per post counts the posts. */
  lemma {:induction false} SizeIsSumOfOnes(ps: seq<Post>)
    ensures SumBy(ps, One) == |ps|
  {
    if ps != [] {
      SizeIsSumOfOnes(ps[..|ps| - 1]);
    }
  }

  lemma SumBySnoc(ps: seq<Post>, p: Post, w: Post -> int)
    ensures SumBy(ps + [p], w) == SumBy(ps, w) + w(p)
  {
    assert (ps + [p])[..|ps|] == ps;
  }

  /** `posts.filter((post) => post.source === src)`, in input order. */
  function FromSource(posts: seq<Post>, src: string): (r: seq<Post>)
    ensures |r| <= |posts|
    ensures forall q :: q in r <==> q in posts && q.source == src
  {
    if posts == [] then []
    else
      var init, last := posts[..|posts| - 1], posts[|posts| - 1];
      assert posts == init + [last];
      var r := FromSource(init, src);
      if last.source == src then r + [last] else r
  }

  lemma FromSourceSnoc(posts: seq<Post>, p: Post, src: string)
    ensures FromSource(posts + [p], src) == FromSource(posts, src) + (if p.source == src then [p] else [])
  {
    assert (posts + [p])[..|posts|] == posts;
  }

  /** Filtering keeps exactly the copies of each post whose source matches. */
  lemma {:induction false} FromSourceMultiset(posts: seq<Post>, src: string, x: Post)
    ensures multiset(FromSource(posts, src))[x] == if x.source == src then multiset(posts)[x] else 0
  {
    if posts != [] {
      var init, last := posts[..|posts| - 1], posts[|posts| - 1];
      assert posts == init + [last];
      FromSourceMultiset(init, src, x);
    }
  }

  /** Filtering two permutations of each other gives permutations of each other. */
  lemma FromSourcePermutation(a: seq<Post>, b: seq<Post>, src: string)
    requires multiset(a) == multiset(b)
    ensures multiset(FromSource(a, src)) == multiset(FromSource(b, src))
  {
    forall x ensures multiset(FromSource(a, src))[x] == multiset(FromSource(b, src))[x] {
      FromSourceMultiset(a, src, x);
      FromSourceMultiset(b, src, x);
    }
  }
}
