/** Stage two of ScoreDocuments: each ranked token is assigned a "top N"
    bucket. Bucket 0 holds the 100 most frequent distinct tokens, bucket 1
    the ranks 100 to 299, and so on; the last boundary, Int32.MaxValue,
    catches the whole long tail. */
module TopNBuckets {

  import opened TokenRanking

  const Int32MaxValue: int := 0x7fff_ffff

  /** _topNTermBuckets: ascending rank boundaries, one per bucket. */
  const Boundaries: seq<int> := [100, 300, 1000, 3000, 10000, 30000, 100000,
    300000, 1000000, 3000000, 10000000, 30000000, Int32MaxValue]

  /** The number of buckets, and the length of every bucket vector. */
  const BucketTotal: nat := |Boundaries|

  lemma BoundariesAscend()
    ensures BucketTotal == 13 && Boundaries[BucketTotal - 1] == Int32MaxValue
    ensures forall b, c :: 0 <= b < c < BucketTotal ==> Boundaries[b] < Boundaries[c]
  {
  }

  /** bucketNumbers.SkipWhile(n => i >= _topNTermBuckets[n]).First(), with
      the scan started at bucket b. */
  function FirstBucketFrom(i: nat, b: nat): (r: nat)
    requires b < BucketTotal && i < Int32MaxValue
    ensures b <= r < BucketTotal
    decreases BucketTotal - b
  {
    if i < Boundaries[b] then b else FirstBucketFrom(i, b + 1)
  }

  /** The bucket of the token of rank i (line 24). First() would throw once
      i reaches Int32.MaxValue, so the rank is bounded. */
  function BucketOf(i: nat): (r: nat)
    requires i < Int32MaxValue
    ensures r < BucketTotal
  {
    FirstBucketFrom(i, 0)
  }

  /** The scan from b stops at the first bucket from b on whose boundary
      exceeds the rank. */
  lemma {:induction false} FirstBucketFromIsFirst(i: nat, b: nat)
    requires b < BucketTotal && i < Int32MaxValue
    ensures i < Boundaries[FirstBucketFrom(i, b)]
    ensures forall c :: b <= c < FirstBucketFrom(i, b) ==> Boundaries[c] <= i
    decreases BucketTotal - b
  {
    if i >= Boundaries[b] {
      FirstBucketFromIsFirst(i, b + 1);
    }
  }

  /** BucketOf(i) is the smallest bucket whose boundary exceeds i. */
  lemma BucketOfIsFirst(i: nat)
    requires i < Int32MaxValue
    ensures i < Boundaries[BucketOf(i)]
    ensures forall c :: 0 <= c < BucketOf(i) ==> Boundaries[c] <= i
  {
    FirstBucketFromIsFirst(i, 0);
  }

  /** Bucket b holds exactly the ranks from the previous boundary up to,
      not including, its own. */
  lemma BucketOfRange(i: nat, b: nat)
    requires i < Int32MaxValue && b < BucketTotal
    ensures BucketOf(i) == b <==> (b == 0 || Boundaries[b - 1] <= i) && i < Boundaries[b]
  {
    BoundariesAscend();
    BucketOfIsFirst(i);
    var r := BucketOf(i);
    if r < b {
      assert Boundaries[r] <= Boundaries[b - 1];
    }
  }

  /** A later rank never gets an earlier bucket. */
  lemma BucketOfMonotone(i: nat, j: nat)
    requires i <= j < Int32MaxValue
    ensures BucketOf(i) <= BucketOf(j)
  {
    BucketOfIsFirst(i);
    BucketOfIsFirst(j);
  }

  /** Every token has a bucket in the map, so the dictionary lookups
      tokensToTopNBucket[token] succeed. */
  ghost predicate Covers(m: map<Token, nat>, tokens: seq<Token>)
  {
    forall t :: t in tokens ==> t in m && m[t] < BucketTotal
  }

  /** The index i that Select((o, i) => ...) pairs with each ranked token.
      ToDictionary would throw on a repeated key; ranked tokens are
      distinct. */
  function RankOf(r: seq<Token>): (rank: map<Token, nat>)
    requires forall i, j :: 0 <= i < j < |r| ==> r[i] != r[j]
    ensures forall t :: t in rank <==> t in r
    ensures forall i :: 0 <= i < |r| ==> rank[r[i]] == i
  {
    if r == [] then map[]
    else
      var n := |r| - 1;
      RankOf(r[..n])[r[n] := n]
  }

  lemma RanksBelowLength(r: seq<Token>)
    requires forall i, j :: 0 <= i < j < |r| ==> r[i] != r[j]
    ensures forall t :: t in RankOf(r) ==> RankOf(r)[t] < |r|
  {
    forall t | t in RankOf(r) ensures RankOf(r)[t] < |r| {
      var i :| 0 <= i < |r| && r[i] == t;
    }
  }

  /** tokensToTopNBucket (lines 20-25): every distinct token of the corpus,
      mapped to the bucket of its rank. */
  function TokenBuckets(s: seq<Token>): (m: map<Token, nat>)
    requires |Distinct(s)| <= Int32MaxValue
    ensures forall t :: t in m <==> t in s
    ensures Covers(m, s)
  {
    var r := Ranking(s);
    var rank := RankOf(r);
    RanksBelowLength(r);
    map t | t in rank :: BucketOf(rank[t])
  }

  /** The token ranked i is mapped to the bucket of rank i. */
  lemma TokenBucketsByRank(s: seq<Token>, i: nat)
    requires |Distinct(s)| <= Int32MaxValue && i < |Ranking(s)|
    ensures Ranking(s)[i] in TokenBuckets(s)
    ensures TokenBuckets(s)[Ranking(s)[i]] == BucketOf(i)
  {
    var r := Ranking(s);
    assert RankOf(r)[r[i]] == i;
  }

  /** A strictly more frequent token never lands in a later bucket than a
      less frequent one. */
  lemma MoreFrequentNoLaterBucket(s: seq<Token>, a: Token, b: Token)
    requires |Distinct(s)| <= Int32MaxValue
    requires a in s && b in s && Count(s, a) > Count(s, b)
    ensures TokenBuckets(s)[a] <= TokenBuckets(s)[b]
  {
    var r := Ranking(s);
    var i :| 0 <= i < |r| && r[i] == a;
    var j :| 0 <= j < |r| && r[j] == b;
    MoreFrequentRankedEarlier(s, i, j);
    BucketOfMonotone(i, j);
    TokenBucketsByRank(s, i);
    TokenBucketsByRank(s, j);
  }

  /** Repeating the corpus leaves every token in its bucket. */
  lemma TokenBucketsOfRepeated(s: seq<Token>)
    requires |Distinct(s)| <= Int32MaxValue
    ensures |Distinct(s + s)| <= Int32MaxValue
    ensures TokenBuckets(s + s) == TokenBuckets(s)
  {
    RankingOfRepeated(s);
  }

  /** The bucket map depends on the corpus only through its ranking. */
  lemma TokenBucketsFollowRanking(s: seq<Token>, s2: seq<Token>)
    requires |Distinct(s)| <= Int32MaxValue && |Distinct(s2)| <= Int32MaxValue
    requires Ranking(s) == Ranking(s2)
    ensures TokenBuckets(s) == TokenBuckets(s2)
  {
  }

  /** Doubling every document in place leaves every token in its bucket. */
  lemma TokenBucketsOfDoubleEach(docs: seq<seq<Token>>)
    requires |Distinct(Flatten(docs))| <= Int32MaxValue
    ensures |Distinct(Flatten(DoubleEach(docs)))| <= Int32MaxValue
    ensures TokenBuckets(Flatten(DoubleEach(docs))) == TokenBuckets(Flatten(docs))
  {
    FlattenOfDoubleEach(docs);
    RankingOfDoubleEach(docs);
  }

  /** Without ties in the counts, reordering the corpus leaves every token
      in its bucket. */
  lemma TokenBucketsOfReordered(s: seq<Token>, s2: seq<Token>)
    requires multiset(s) == multiset(s2)
    requires forall a, b :: a in s && b in s && a != b ==> Count(s, a) != Count(s, b)
    requires |Distinct(s)| <= Int32MaxValue
    ensures |Distinct(s2)| <= Int32MaxValue
    ensures TokenBuckets(s2) == TokenBuckets(s)
  {
    RankingWithoutTies(s, s2);
  }
}
