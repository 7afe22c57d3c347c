/** The shared vocabulary of the digest pipeline: a news item as the feed
    fetcher builds it, and the category-to-items mapping that the classifier
    produces and the formatter consumes. */
module News {

  /** One feed entry. The fetcher copies four fields of an RSS entry into a
      dictionary; the classifier reads only `title`, the formatter reads
      `title` and `link`, and neither changes any field. */
  datatype Item = Item(title: string, link: string, published: string, summary: string)

  /** A Python dict keeps insertion order and the formatter depends on it, so
      the category mapping is an ordered sequence of (label, items) pairs. */
  type Digest = seq<(string, seq<Item>)>

  /** The labels of a digest, in iteration order. */
  function Keys(d: Digest): (ks: seq<string>)
    ensures |ks| == |d|
    ensures forall k :: 0 <= k < |d| ==> ks[k] == d[k].0
  {
    seq(|d|, k requires 0 <= k < |d| => d[k].0)
  }

  /** A dict never holds the same key twice. */
  predicate DistinctKeys(d: Digest) {
    forall a, b :: 0 <= a < b < |d| ==> d[a].0 != d[b].0
  }

  /** All items of a digest, bucket after bucket. */
  function Flatten(d: Digest): seq<Item> {
    if d == [] then [] else d[0].1 + Flatten(d[1..])
  }

  /** Concatenation is associative; called where the solver needs the
      regrouping spelled out. */
  lemma Assoc<T>(a: seq<T>, b: seq<T>, c: seq<T>)
    ensures a + b + c == a + (b + c)
  {
  }

  /** A non-empty sequence is its front followed by its last element, also
      after a prefix. */
  lemma Snoc<T>(a: seq<T>, b: seq<T>)
    requires b != []
    ensures b == b[..|b| - 1] + [b[|b| - 1]]
    ensures a + b == (a + b[..|b| - 1]) + [b[|b| - 1]]
  {
  }

  /** A digest holds no items at all exactly when every one of its lists is
      empty. */
  lemma {:induction false} FlattenEmptyIff(d: Digest)
    ensures Flatten(d) == [] <==> forall k :: 0 <= k < |d| ==> d[k].1 == []
  {
    if d != [] {
      FlattenEmptyIff(d[1..]);
      assert forall k :: 0 < k < |d| ==> d[k] == d[1..][k - 1];
    }
  }
}
