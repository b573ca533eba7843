# AnomalousText: Distance to Textual Complement

`AnomalyScorer.ScoreDocuments` gives each document of a corpus an anomaly
score by the "Distance to Textual Complement" method. A document is a list
of tokens. The method runs in five stages:

1. Rank the corpus' distinct tokens by descending count.
2. Assign each rank a "top N" bucket from a fixed table of 13 ascending
   boundaries (100, 300, 1000, …, 30000000, Int32.MaxValue).
3. Count the tokens of the whole corpus (the universe) per bucket, giving
   a 13-slot vector.
4. Build the same 13-slot vector for each document.
5. Normalise each document's vector, and its complement (universe minus
   document), to a distribution. The score is the L1 (Manhattan) distance
   between the two distributions.

The model is pure, like the LINQ code it follows. It has five modules:

- `VectorMath`: the vector helpers shared by several stages: sums,
  `Subtract`, `ManhattanDistance` and normalisation.
- `TokenRanking`: stage 1. Flattening, grouping in first-appearance order,
  and the stable sort by descending count.
- `TopNBuckets`: stage 2. The boundary table, the bucket of a rank, and
  the map from token to bucket.
- `BucketVectors`: stages 3 and 4. The per-bucket histograms and the
  universe and document vectors.
- `AnomalyScorer`: stage 5. The per-document score and `ScoreDocuments`.

Counts are unbounded naturals. Scores are exact reals.

The ranking is modelled as the code computes it. LINQ's `GroupBy` yields
keys in order of first appearance, and `OrderByDescending` is stable. So
equally frequent tokens are ranked by their first appearance in the
flattened corpus. `TokenRanking.RankingUnique` proves that this order
(relation `Before`) determines the ranking completely.

This tie-break is visible in the results. It is tempting to believe that
permuting the documents only permutes the scores. That holds when no two
tokens occur equally often: then every document keeps its score wherever
it stands in the corpus (`AnomalyScorer.ScoreOfReorderedCorpus`). With
ties, reordering the corpus reorders the ranking
(`TokenRanking.TiesFollowFirstAppearance`). Near a bucket boundary that
moves tokens between buckets, and so changes scores.

The order of the tokens inside a document does not matter in the same
sense. For a fixed bucket map a document's vector depends only on how
often each token occurs in it (`BucketVectors.BucketVectorOfPermutation`).
When no two tokens tie in count, reordering the tokens of every document
leaves every score as it was (`AnomalyScorer.ScoreOfTokensReordered`).
With ties, such a reorder can change the map through the same tie-break.

Scores are scale-invariant in one sense and not in another. Take
"doubling every document" to mean that each document is followed, in
place, by a second copy of itself. Then every count doubles and no first
appearance changes order, so the ranking and the bucket map stay the
same. Each document vector and the universe vector double, so both
distributions stay the same, and so does every score
(`AnomalyScorer.ScoreOfDoubleEach`).

Appending a second copy of the whole corpus is different. It keeps the
ranking, the bucket map and every document vector, but it doubles the
universe (`AnomalyScorer.ScoreOfRepeatedCorpus`). The complement then
becomes 2·universe − document, which is not proportional to the old one.
So a document's score can change. Take a corpus of two documents: the
first holds 100 distinct tokens twice each, the second one further token.
The 100 tokens fill bucket 0 and the further token falls in bucket 1. The
first document scores 2, and 2/101 once the corpus is repeated
(`AnomalyScorer.ExampleScores`, from `DisjointScore` and
`DoubledUniverseScore` on the 13-slot vectors of that corpus). The model
follows the code in both readings.

Source paths below are relative to the repository root.

## Model

| member | source | states |
|---|---|---|
| VectorMath.Abs | AnomalousText/AnomalyScorer.cs:57 | Math.Abs returns x or −x, whichever is non-negative |
| VectorMath.NatSumBoundsEntries | AnomalousText/AnomalyScorer.cs:33 | `NatSum`, Enumerable.Sum over a count vector (lines 33 and 42): no entry exceeds the total |
| VectorMath.SumNonNegative | AnomalousText/AnomalyScorer.cs:42 | `Sum`, Enumerable.Sum over a real-valued vector, as `document.Sum()` takes it (line 33 likewise): a vector of non-negative entries has a non-negative total |
| VectorMath.Subtract | AnomalousText/AnomalyScorer.cs:50-53 | Zip semantics: the result is as long as the shorter operand; entry i is left[i] − right[i] |
| VectorMath.SubtractSum | AnomalousText/AnomalyScorer.cs:50-53 | on equal lengths, the total of the difference is the difference of the totals |
| VectorMath.SubtractUndone | AnomalousText/AnomalyScorer.cs:50-53 | adding the right operand back to the difference restores the left operand |
| VectorMath.AsReal | AnomalousText/AnomalyScorer.cs:32 | the count vector converted to reals: same length, same entries |
| VectorMath.AsRealSum | AnomalousText/AnomalyScorer.cs:33 | conversion keeps the total |
| VectorMath.DivideAll | AnomalousText/AnomalyScorer.cs:44-45 | every entry is divided by the one denominator; the length is kept |
| VectorMath.DivideAllSum | AnomalousText/AnomalyScorer.cs:44-45 | dividing every entry divides the total |
| VectorMath.DivideAllOfDoubled | AnomalousText/AnomalyScorer.cs:44-45 | dividing twice the entries by twice the denominator gives the same vector |
| VectorMath.NormalisedIsDistribution | AnomalousText/AnomalyScorer.cs:44-45 | dividing by the vector's own positive total gives entries summing to 1, all non-negative when the input's are |
| VectorMath.ManhattanDistance | AnomalousText/AnomalyScorer.cs:55-58 | the distance is never negative |
| VectorMath.ManhattanSymmetric | AnomalousText/AnomalyScorer.cs:55-58 | the distance is symmetric |
| VectorMath.ManhattanZeroIff | AnomalousText/AnomalyScorer.cs:55-58 | on equal lengths, the distance is 0 exactly when the vectors are equal |
| VectorMath.ManhattanAtMostTotals | AnomalousText/AnomalyScorer.cs:55-58 | between non-negative vectors, the distance is at most the sum of their totals |
| VectorMath.DistributionsWithinTwo | AnomalousText/AnomalyScorer.cs:46 | two non-negative vectors each summing to 1 are at most 2 apart |
| VectorMath.ManhattanTriangle | AnomalousText/AnomalyScorer.cs:55-58 | the triangle inequality |
| TokenRanking.Flatten | AnomalousText/AnomalyScorer.cs:21 | a token occurs in the flattened corpus exactly when it occurs in some document |
| TokenRanking.FlattenAppend | AnomalousText/AnomalyScorer.cs:21 | flattening two corpora back to back concatenates their flattenings |
| TokenRanking.FlattenOfPermutation | AnomalousText/AnomalyScorer.cs:21 | corpora holding the same documents, as often each, flatten to the same tokens, as often each |
| TokenRanking.FlattenOfTokenReorder | AnomalousText/AnomalyScorer.cs:21 | reordering the tokens within each document reorders the flattened corpus: the same tokens, as often each |
| TokenRanking.Count | AnomalousText/AnomalyScorer.cs:23 | the group's `Count()`: positive exactly when the token occurs |
| TokenRanking.FirstIndex | AnomalousText/AnomalyScorer.cs:22 | the position of a token's first occurrence: it holds the token and no earlier position does |
| TokenRanking.Distinct | AnomalousText/AnomalyScorer.cs:22 | GroupBy keys: exactly the corpus' tokens, in strictly increasing order of first occurrence |
| TokenRanking.DistinctSize | AnomalousText/AnomalyScorer.cs:22 | the number of groups depends only on which tokens occur |
| TokenRanking.DistinctOfSeen | AnomalousText/AnomalyScorer.cs:22 | tokens already seen start no new group |
| TokenRanking.DistinctOfSameStart | AnomalousText/AnomalyScorer.cs:22 | the groups of p + q depend on p only through the groups of p |
| TokenRanking.InsertByCount | AnomalousText/AnomalyScorer.cs:23 | one insertion step adds exactly the inserted token to the contents |
| TokenRanking.SortByCount | AnomalousText/AnomalyScorer.cs:23 | the sort is a permutation of its input |
| TokenRanking.InsertKeepsRanked | AnomalousText/AnomalyScorer.cs:22-23 | inserting a token that first appears after all ranked tokens keeps the list ordered by Before |
| TokenRanking.SortIsRanked | AnomalousText/AnomalyScorer.cs:22-23 | stable sorting of keys in first-appearance order yields a list ordered by Before |
| TokenRanking.Ranking | AnomalousText/AnomalyScorer.cs:20-23 | every distinct corpus token is ranked exactly once, and rank order is the order Before (count descending, then first appearance) |
| TokenRanking.RankOrder | AnomalousText/AnomalyScorer.cs:20-23 | two ranks hold the same token exactly when they are equal; i < j exactly when token i comes Before token j |
| TokenRanking.MoreFrequentRankedEarlier | AnomalousText/AnomalyScorer.cs:23 | a strictly more frequent token has a smaller rank |
| TokenRanking.BeforeAsymmetric | AnomalousText/AnomalyScorer.cs:22-23 | Before is asymmetric and total on distinct tokens |
| TokenRanking.RankedByUnique | AnomalousText/AnomalyScorer.cs:22-23 | two lists ordered by Before with the same members are equal |
| TokenRanking.RankingUnique | AnomalousText/AnomalyScorer.cs:20-23 | any ordering of the corpus' distinct tokens by Before is the ranking |
| TokenRanking.RankingOfRepeated | AnomalousText/AnomalyScorer.cs:20-23 | repeating the corpus leaves the ranking unchanged |
| TokenRanking.BeforeByCount | AnomalousText/AnomalyScorer.cs:23 | of two tokens with different counts, the order Before is the same in any reordering of the corpus |
| TokenRanking.RankingWithoutTies | AnomalousText/AnomalyScorer.cs:20-23 | if no two distinct tokens share a count, every reordering of the corpus has the same ranking |
| TokenRanking.TiesFollowFirstAppearance | AnomalousText/AnomalyScorer.cs:22-23 | equally frequent tokens are ranked by first appearance: ["a","b"] ranks a first, ["b","a"] ranks b first |
| TokenRanking.InsertByDoubledCount | AnomalousText/AnomalyScorer.cs:23 | an insertion step compares counts only, so doubling every count inserts alike |
| TokenRanking.SortByDoubledCount | AnomalousText/AnomalyScorer.cs:23 | the stable sort is the same when every count is doubled |
| TokenRanking.RankingOfDoubledCounts | AnomalousText/AnomalyScorer.cs:20-23 | a corpus with the same groups in the same order, each twice as large, has the same ranking |
| TokenRanking.FlattenOfDoubleEach | AnomalousText/AnomalyScorer.cs:21-22 | doubling every document in place doubles every count and keeps the groups in the same order |
| TokenRanking.RankingOfDoubleEach | AnomalousText/AnomalyScorer.cs:20-23 | doubling every document in place leaves the ranking unchanged |
| TopNBuckets.BoundariesAscend | AnomalousText/AnomalyScorer.cs:8 | 13 strictly ascending boundaries, the last being Int32.MaxValue |
| TopNBuckets.FirstBucketFrom | AnomalousText/AnomalyScorer.cs:24 | a scan started at bucket b stops at a bucket in [b, 13) |
| TopNBuckets.BucketOf | AnomalousText/AnomalyScorer.cs:24 | every rank below Int32.MaxValue gets a bucket in [0, 13) |
| TopNBuckets.FirstBucketFromIsFirst | AnomalousText/AnomalyScorer.cs:24 | the scan skips exactly the buckets whose boundary is at most the rank |
| TopNBuckets.BucketOfIsFirst | AnomalousText/AnomalyScorer.cs:24 | the bucket of rank i is the smallest b with i < boundary[b] |
| TopNBuckets.BucketOfRange | AnomalousText/AnomalyScorer.cs:24 | rank i is in bucket b exactly when boundary[b−1] ≤ i < boundary[b] (no lower bound for b = 0) |
| TopNBuckets.BucketOfMonotone | AnomalousText/AnomalyScorer.cs:24 | a later rank never gets an earlier bucket |
| TopNBuckets.RankOf | AnomalousText/AnomalyScorer.cs:24-25 | ToDictionary over distinct ranked tokens: maps exactly the ranked tokens, each to its index |
| TopNBuckets.TokenBuckets | AnomalousText/AnomalyScorer.cs:20-25 | the map's keys are exactly the corpus' tokens, and each maps to a bucket in [0, 13), so every lookup succeeds |
| TopNBuckets.TokenBucketsByRank | AnomalousText/AnomalyScorer.cs:24-25 | the token of rank i maps to the bucket of rank i |
| TopNBuckets.MoreFrequentNoLaterBucket | AnomalousText/AnomalyScorer.cs:23-24 | a strictly more frequent token never lands in a later bucket |
| TopNBuckets.TokenBucketsOfRepeated | AnomalousText/AnomalyScorer.cs:20-25 | repeating the corpus leaves every token in its bucket |
| TopNBuckets.TokenBucketsFollowRanking | AnomalousText/AnomalyScorer.cs:20-25 | corpora with the same ranking have the same bucket map |
| TopNBuckets.TokenBucketsOfDoubleEach | AnomalousText/AnomalyScorer.cs:20-25 | doubling every document in place leaves every token in its bucket |
| TopNBuckets.TokenBucketsOfReordered | AnomalousText/AnomalyScorer.cs:20-25 | without ties in the counts, reordering the corpus leaves every token in its bucket |
| BucketVectors.Histogram | AnomalousText/AnomalyScorer.cs:29-30 | a bucket is a key exactly when some token falls in it, and its value is how many do |
| BucketVectors.Tally | AnomalousText/AnomalyScorer.cs:29-30 | the per-bucket group's `Count()` (lines 30 and 36): never more than the tokens counted |
| BucketVectors.TallyCountsPositions | AnomalousText/AnomalyScorer.cs:29-30 | the tally of bucket b is the number of positions whose token maps to b |
| BucketVectors.TallyPushBack | AnomalousText/AnomalyScorer.cs:29-30 | one more token adds one to the count of its bucket and to no other |
| BucketVectors.BucketVector | AnomalousText/AnomalyScorer.cs:32 | 13 slots; slot b holds the number of tokens in bucket b (0 when the bucket is absent) |
| BucketVectors.TallyAppend | AnomalousText/AnomalyScorer.cs:29-30 | per-bucket counts of two token lists add up |
| BucketVectors.BucketVectorAppend | AnomalousText/AnomalyScorer.cs:29-32 | bucket vectors of concatenated lists add pointwise |
| BucketVectors.BucketVectorSum | AnomalousText/AnomalyScorer.cs:32-33 | a bucket vector sums to the number of tokens counted: each token is in exactly one slot |
| BucketVectors.UniverseVector | AnomalousText/AnomalyScorer.cs:27-33 | 13 slots summing to the corpus' total token count |
| BucketVectors.DocumentsCovered | AnomalousText/AnomalyScorer.cs:36 | every document token has a bucket, so the per-document lookups succeed |
| BucketVectors.TallyWithinCorpus | AnomalousText/AnomalyScorer.cs:27-37 | a document has no more tokens in a bucket than the corpus |
| BucketVectors.DocumentVectors | AnomalousText/AnomalyScorer.cs:35-37 | one vector per document, in order; 13 slots each; each sums to its document's length and lies pointwise within the universe vector |
| BucketVectors.TallyOfPermutation | AnomalousText/AnomalyScorer.cs:36 | per-bucket counts do not depend on the order of the tokens |
| BucketVectors.BucketVectorOfPermutation | AnomalousText/AnomalyScorer.cs:36-37 | a document's vector depends only on how often each token occurs in it |
| BucketVectors.UniverseIsTotalOfDocuments | AnomalousText/AnomalyScorer.cs:27-37 | the universe vector is the pointwise sum of the document vectors |
| BucketVectors.UniverseOfRepeated | AnomalousText/AnomalyScorer.cs:27-33 | repeating the corpus doubles the universe vector |
| BucketVectors.DocumentVectorsOfRepeated | AnomalousText/AnomalyScorer.cs:35-37 | repeating the corpus leaves each original document's vector unchanged |
| BucketVectors.BucketVectorOfTwice | AnomalousText/AnomalyScorer.cs:36-37 | a token list followed by itself has twice its bucket vector |
| BucketVectors.UniverseOfDoubleEach | AnomalousText/AnomalyScorer.cs:27-33 | doubling every document in place doubles the universe vector |
| BucketVectors.DocumentVectorOfDoubleEach | AnomalousText/AnomalyScorer.cs:35-37 | doubling every document in place doubles each document vector |
| BucketVectors.UniverseOfReordered | AnomalousText/AnomalyScorer.cs:27-33 | reordering the documents leaves the universe vector unchanged |
| AnomalyScorer.NormalisedDocument | AnomalousText/AnomalyScorer.cs:42-45 | each slot divided by the document's token count; the result is a distribution (non-negative, sums to 1) |
| AnomalyScorer.ComplementTokenCount | AnomalousText/AnomalyScorer.cs:43 | the universe's total less the document's |
| AnomalyScorer.Complement | AnomalousText/AnomalyScorer.cs:44 | universe minus document; sums to the complement token count; non-negative when the document lies within the universe |
| AnomalyScorer.NormalisedComplement | AnomalousText/AnomalyScorer.cs:43-44 | each slot is (universe − document) / complementTokenCount; sums to 1; non-negative when the document lies within the universe |
| AnomalyScorer.DocumentScore | AnomalousText/AnomalyScorer.cs:40-46 | the score is ≥ 0, is 0 exactly when the two distributions agree, and is ≤ 2 when the document lies within the universe |
| AnomalyScorer.ScoreAll | AnomalousText/AnomalyScorer.cs:39-47 | one score per document vector, in order, each the document's score and in [0, 2] |
| AnomalyScorer.ScoreDocuments | AnomalousText/AnomalyScorer.cs:17-48 | one score per input document, in input order, each in [0, 2] and equal to the score of that document's vector against the universe vector |
| AnomalyScorer.RepeatedCorpusScorable | AnomalousText/AnomalyScorer.cs:17-48 | a corpus repeated twice meets the preconditions whenever the corpus does |
| AnomalyScorer.ScoreOfRepeatedCorpus | AnomalousText/AnomalyScorer.cs:17-48 | in a corpus repeated twice, each original document is scored against twice the original universe, with its own vector unchanged |
| AnomalyScorer.ScoreOfTwoBuckets | AnomalousText/AnomalyScorer.cs:46 | when both distributions are empty after bucket 1, the score is the distance over buckets 0 and 1 alone |
| AnomalyScorer.ExampleDocumentNormalised | AnomalousText/AnomalyScorer.cs:42-45 | a document of 200 tokens all in bucket 0 totals 200 and normalises to 1 in bucket 0 and 0 elsewhere |
| AnomalyScorer.ExampleComplementNormalised | AnomalousText/AnomalyScorer.cs:43-44 | against a universe with one further token in bucket 1, that document's complement totals 1 and normalises to 1 in bucket 1 and 0 elsewhere |
| AnomalyScorer.DoubledComplementNormalised | AnomalousText/AnomalyScorer.cs:43-44 | against twice that universe the complement totals 202 and normalises to 100/101 in bucket 0, 1/101 in bucket 1 and 0 elsewhere |
| AnomalyScorer.DisjointScore | AnomalousText/AnomalyScorer.cs:40-46 | that document scores the maximum, 2, against that universe |
| AnomalyScorer.DoubledUniverseScore | AnomalousText/AnomalyScorer.cs:40-46 | the same document scores 2/101 against twice that universe, the universe of the corpus repeated twice |
| AnomalyScorer.ExampleScores | AnomalousText/AnomalyScorer.cs:17-48 | on the 13-slot vectors of a two-document corpus (100 distinct tokens twice each; one further token) the first document scores 2, and 2/101 once the corpus is repeated |
| AnomalyScorer.NormalisedDocumentOfTwice | AnomalousText/AnomalyScorer.cs:42-45 | doubling a document vector leaves its distribution unchanged |
| AnomalyScorer.ComplementOfTwice | AnomalousText/AnomalyScorer.cs:43-44 | doubling the universe and the document doubles the complement and its token count |
| AnomalyScorer.NormalisedComplementOfTwice | AnomalousText/AnomalyScorer.cs:43-44 | doubling the universe and the document leaves the complement's distribution unchanged |
| AnomalyScorer.DocumentScoreOfTwice | AnomalousText/AnomalyScorer.cs:40-46 | the score is scale-invariant: doubling the universe and the document together leaves it unchanged |
| AnomalyScorer.DoubleEachScorable | AnomalousText/AnomalyScorer.cs:17-48 | a corpus with every document doubled in place meets the preconditions whenever the corpus does; its token total doubles |
| AnomalyScorer.ScoreOfScaledVectors | AnomalousText/AnomalyScorer.cs:39-47 | a document whose vector and universe are both twice another's has the same score |
| AnomalyScorer.ScoreOfDoubleEachAt | AnomalousText/AnomalyScorer.cs:17-48 | a document doubled in place, in a corpus doubled in place, keeps its score |
| AnomalyScorer.ScoreOfDoubleEach | AnomalousText/AnomalyScorer.cs:17-48 | doubling every document in place leaves the list of scores unchanged |
| AnomalyScorer.ScoresOfDoubleEachAgree | AnomalousText/AnomalyScorer.cs:17-48 | doubling every document in place leaves each document's score as it was |
| AnomalyScorer.ReorderedScorable | AnomalousText/AnomalyScorer.cs:17-48 | a reordering of a corpus meets the preconditions whenever the corpus does, and flattens to the same tokens |
| AnomalyScorer.ScoreOfReorderedAt | AnomalousText/AnomalyScorer.cs:17-48 | without ties in the counts, a document has the same score in a reordered corpus |
| AnomalyScorer.ScoreOfReorderedCorpus | AnomalousText/AnomalyScorer.cs:17-48 | without ties in the counts, reordering the documents only reorders the scores: a document scores alike wherever it stands |
| AnomalyScorer.TokensReorderedScorable | AnomalousText/AnomalyScorer.cs:17-48 | a corpus whose documents each have their tokens reordered meets the preconditions whenever the corpus does, and flattens to the same tokens, as often each |
| AnomalyScorer.ScoreOfTokensReorderedAt | AnomalousText/AnomalyScorer.cs:17-48 | without ties in the counts, a document keeps its score when the tokens of every document are reordered |
| AnomalyScorer.ScoresOfTokensReorderedAgree | AnomalousText/AnomalyScorer.cs:17-48 | without ties in the counts, every document keeps its score when the tokens of every document are reordered |
| AnomalyScorer.ScoreOfTokensReordered | AnomalousText/AnomalyScorer.cs:17-48 | without ties in the counts, reordering the tokens within every document leaves the list of scores unchanged |

## Left out

- ScoreDocuments: requires every document to be non-empty and shorter than the corpus. In the code an empty document divides 0 by 0 at line 45, and a document holding the whole corpus does the same at line 44. Both give NaN scores, and IEEE NaN is not modelled.
- ScoreDocuments: requires at most Int32.MaxValue distinct tokens. With more, `First()` on line 24 throws because every bucket is skipped for rank Int32.MaxValue.
- Double precision: the vectors and scores are exact reals, so IEEE rounding in the sums and divisions (lines 33, 42-46, 57) is not modelled.
- Int32 arithmetic: token counts are unbounded naturals. The overflow of `Count()` or of the rank index beyond Int32.MaxValue is not modelled.
- LINQ mechanics: deferred evaluation and `Dictionary` hashing are not modelled. Only the order properties the result depends on are kept: GroupBy's first-appearance order and OrderByDescending's stability.
- Null corpus, null documents and null tokens: Dafny sequences and strings cannot be null, and the code does no validation.
- The research-paper and blog links in the doc comment (lines 12-13) are documentation only.
