/** AnomalyScorer.ScoreDocuments: the "Distance to Textual Complement"
    anomaly score. Each document's bucket vector and the bucket vector of
    the rest of the corpus (its complement) are normalised to
    distributions, and the score is the Manhattan distance between the two.
    Scores are exact reals; the source computes them in double. */
module AnomalyScorer {

  import opened VectorMath
  import opened TokenRanking
  import opened TopNBuckets
  import opened BucketVectors

  /** documentVector (line 45): each slot divided by documentTokenCount,
      the document's total. */
  function NormalisedDocument(document: seq<nat>): (v: seq<real>)
    requires NatSum(document) > 0
    ensures |v| == |document|
    ensures forall b :: 0 <= b < |v| ==> v[b] == document[b] as real / NatSum(document) as real
    ensures NonNegative(v) && Sum(v) == 1.0
  {
    var d := AsReal(document);
    AsRealSum(document);
    NormalisedIsDistribution(d, Sum(d));
    DivideAll(d, Sum(d))
  }

  /** complementTokenCount (line 43): the universe's total less the
      document's, both summed over the double vectors. */
  function ComplementTokenCount(universe: seq<nat>, document: seq<nat>): (c: real)
    ensures c == (NatSum(universe) - NatSum(document)) as real
  {
    AsRealSum(universe);
    AsRealSum(document);
    Sum(AsReal(universe)) - Sum(AsReal(document))
  }

  /** The complement before normalisation: Subtract(universeVector, document). */
  function Complement(universe: seq<nat>, document: seq<nat>): (v: seq<real>)
    requires |universe| == |document|
    ensures |v| == |document|
    ensures Sum(v) == ComplementTokenCount(universe, document)
    ensures PointwiseAtMost(document, universe) ==> NonNegative(v)
  {
    AsRealSum(universe);
    AsRealSum(document);
    SubtractSum(AsReal(universe), AsReal(document));
    Subtract(AsReal(universe), AsReal(document))
  }

  /** complementVector (line 44): the complement, each slot divided by
      complementTokenCount. It is a distribution when the document lies
      inside the universe. */
  function NormalisedComplement(universe: seq<nat>, document: seq<nat>): (v: seq<real>)
    requires |universe| == |document|
    requires NatSum(document) < NatSum(universe)
    ensures |v| == |document|
    ensures forall b :: 0 <= b < |v| ==>
      v[b] == (universe[b] as real - document[b] as real) / (NatSum(universe) - NatSum(document)) as real
    ensures Sum(v) == 1.0
    ensures PointwiseAtMost(document, universe) ==> NonNegative(v)
  {
    var complement := Complement(universe, document);
    var complementTokenCount := ComplementTokenCount(universe, document);
    NormalisedIsDistribution(complement, complementTokenCount);
    DivideAll(complement, complementTokenCount)
  }

  /** The score of one document (lines 42-46): the L1 distance between its
      normalised vector and its normalised complement. It is zero exactly
      when the two distributions agree, and at most 2 because both are
      distributions. */
  function DocumentScore(universe: seq<nat>, document: seq<nat>): (score: real)
    requires |universe| == |document|
    requires 0 < NatSum(document) < NatSum(universe)
    ensures score >= 0.0
    ensures score == 0.0 <==> NormalisedDocument(document) == NormalisedComplement(universe, document)
    ensures PointwiseAtMost(document, universe) ==> score <= 2.0
  {
    var documentVector := NormalisedDocument(document);
    var complementVector := NormalisedComplement(universe, document);
    ManhattanZeroIff(documentVector, complementVector);
    assert PointwiseAtMost(document, universe) ==> ManhattanDistance(documentVector, complementVector) <= 2.0 by {
      if PointwiseAtMost(document, universe) {
        DistributionsWithinTwo(documentVector, complementVector);
      }
    }
    ManhattanDistance(documentVector, complementVector)
  }

  /** documentVectors.Select(document => ...) (lines 39-47): the score of
      every document vector against the universe, in order; each lies in
      [0, 2]. */
  function ScoreAll(universe: seq<nat>, documents: seq<seq<nat>>): (scores: seq<real>)
    requires forall k :: 0 <= k < |documents| ==> |documents[k]| == |universe|
    requires forall k :: 0 <= k < |documents| ==>
      0 < NatSum(documents[k]) < NatSum(universe) && PointwiseAtMost(documents[k], universe)
    ensures |scores| == |documents|
    ensures forall k :: 0 <= k < |documents| ==>
      scores[k] == DocumentScore(universe, documents[k]) && 0.0 <= scores[k] <= 2.0
  {
    seq(|documents|, k requires 0 <= k < |documents| => DocumentScore(universe, documents[k]))
  }

  /** The corpora ScoreDocuments is defined on: every document has a token
      and no document holds every token of the corpus (otherwise lines
      44-45 divide by zero), and there are at most Int32.MaxValue
      distinct tokens (with more, First() on line 24 throws). */
  ghost predicate Scorable(docs: seq<seq<Token>>)
  {
    && (forall k :: 0 <= k < |docs| ==> 0 < |docs[k]| < |Flatten(docs)|)
    && |Distinct(Flatten(docs))| <= Int32MaxValue
  }

  /** ScoreDocuments (lines 17-48): one score per document, in input
      order, each in [0, 2]. */
  function ScoreDocuments(docs: seq<seq<Token>>): (scores: seq<real>)
    requires Scorable(docs)
    ensures |scores| == |docs|
    ensures forall k :: 0 <= k < |docs| ==> 0.0 <= scores[k] <= 2.0
    ensures forall k :: 0 <= k < |docs| ==>
      var m := TokenBuckets(Flatten(docs));
      scores[k] == DocumentScore(UniverseVector(docs, m), DocumentVectors(docs, m)[k])
  {
    var m := TokenBuckets(Flatten(docs));
    ScoreAll(UniverseVector(docs, m), DocumentVectors(docs, m))
  }

  /** ScoreDocuments is defined on a corpus repeated twice whenever it is
      defined on the corpus itself. */
  lemma RepeatedCorpusScorable(docs: seq<seq<Token>>)
    requires Scorable(docs)
    ensures |Flatten(docs + docs)| == 2 * |Flatten(docs)|
    ensures Scorable(docs + docs)
  {
    FlattenAppend(docs, docs);
    TokenBucketsOfRepeated(Flatten(docs));
    forall k | 0 <= k < |docs + docs| ensures 0 < |(docs + docs)[k]| < |Flatten(docs + docs)| {
      if k >= |docs| {
        assert (docs + docs)[k] == docs[k - |docs|];
      }
    }
  }

  /** Scoring a corpus repeated twice scores each original document
      against a doubled universe: the document vector is unchanged but
      the complement becomes 2 * universe - document. */
  lemma ScoreOfRepeatedCorpus(docs: seq<seq<Token>>, k: nat)
    requires Scorable(docs)
    requires k < |docs|
    ensures Scorable(docs + docs)
    ensures var m := TokenBuckets(Flatten(docs));
      var universe, document := UniverseVector(docs, m), DocumentVectors(docs, m)[k];
      && |Twice(universe)| == |document|
      && 0 < NatSum(document) < NatSum(Twice(universe))
      && ScoreDocuments(docs + docs)[k] == DocumentScore(Twice(universe), document)
  {
    var s := Flatten(docs);
    var m := TokenBuckets(s);
    RepeatedCorpusScorable(docs);
    FlattenAppend(docs, docs);
    TokenBucketsOfRepeated(s);
    UniverseOfRepeated(docs, m);
    DocumentVectorsOfRepeated(docs, m);
  }

  /** A count vector whose first two buckets hold first and second and
      whose other buckets are empty. */
  ghost predicate TwoBuckets(v: seq<nat>, first: nat, second: nat)
  {
    && |v| >= 2 && v[0] == first && v[1] == second
    && forall i :: 2 <= i < |v| ==> v[i] == 0
  }

  /** Such a vector's total is that of its first two buckets. */
  lemma TwoBucketTotal(v: seq<nat>, first: nat, second: nat)
    requires TwoBuckets(v, first, second)
    ensures NatSum(v) == first + second
  {
    assert v[1..][1..] == v[2..];
    EmptyTotal(v[2..]);
  }

  lemma {:induction false} EmptyTotal(v: seq<nat>)
    requires forall i :: 0 <= i < |v| ==> v[i] == 0
    ensures NatSum(v) == 0
  {
    if v != [] {
      EmptyTotal(v[1..]);
    }
  }

  /** Doubling such a vector doubles its first two buckets. */
  lemma TwiceTwoBuckets(v: seq<nat>, first: nat, second: nat)
    requires TwoBuckets(v, first, second)
    ensures TwoBuckets(Twice(v), 2 * first, 2 * second)
  {
  }

  /** Two distributions that agree after their first two buckets are as far
      apart as those two buckets make them. */
  lemma DistanceOfTwoBuckets(left: seq<real>, right: seq<real>)
    requires |left| == |right| >= 2 && left[2..] == right[2..]
    ensures ManhattanDistance(left, right) == Abs(left[0] - right[0]) + Abs(left[1] - right[1])
  {
    ManhattanZeroIff(left[2..], right[2..]);
    assert left[1..][1..] == left[2..] && right[1..][1..] == right[2..];
  }

  /** A document whose distribution and complement are empty after the
      first two buckets scores by those two buckets alone. */
  lemma ScoreOfTwoBuckets(universe: seq<nat>, document: seq<nat>)
    requires |universe| == |document| >= 2
    requires 0 < NatSum(document) < NatSum(universe)
    requires var d := NormalisedDocument(document);
      forall i :: 2 <= i < |d| ==> d[i] == 0.0
    requires var c := NormalisedComplement(universe, document);
      forall i :: 2 <= i < |c| ==> c[i] == 0.0
    ensures var d, c := NormalisedDocument(document), NormalisedComplement(universe, document);
      DocumentScore(universe, document) == Abs(d[0] - c[0]) + Abs(d[1] - c[1])
  {
    var d, c := NormalisedDocument(document), NormalisedComplement(universe, document);
    assert d[2..] == c[2..];
    DistanceOfTwoBuckets(d, c);
  }

  /** A document of 200 tokens, all in bucket 0, lies wholly in bucket 0. */
  lemma ExampleDocumentNormalised(document: seq<nat>)
    requires TwoBuckets(document, 200, 0)
    ensures NatSum(document) == 200
    ensures var d := NormalisedDocument(document);
      && d[0] == 1.0 && d[1] == 0.0
      && forall i :: 2 <= i < |d| ==> d[i] == 0.0
  {
    TwoBucketTotal(document, 200, 0);
    var d := NormalisedDocument(document);
    assert d[0] == 200.0 / 200.0 && d[1] == 0.0 / 200.0;
  }

  /** Against a universe with one further token, in bucket 1, the
      complement is that token, wholly in bucket 1. */
  lemma ExampleComplementNormalised(universe: seq<nat>, document: seq<nat>)
    requires TwoBuckets(universe, 200, 1) && TwoBuckets(document, 200, 0)
    requires |universe| == |document|
    ensures NatSum(document) == 200 && NatSum(universe) == 201
    ensures var c := NormalisedComplement(universe, document);
      && c[0] == 0.0 && c[1] == 1.0
      && forall i :: 2 <= i < |c| ==> c[i] == 0.0
  {
    TwoBucketTotal(universe, 200, 1);
    TwoBucketTotal(document, 200, 0);
    var c := NormalisedComplement(universe, document);
    assert c[0] == 0.0 / 1.0 && c[1] == 1.0 / 1.0;
  }

  /** Against twice that universe the complement is a second copy of the
      document and two copies of the further token. */
  lemma DoubledComplementNormalised(universe: seq<nat>, document: seq<nat>)
    requires TwoBuckets(universe, 400, 2) && TwoBuckets(document, 200, 0)
    requires |universe| == |document|
    ensures NatSum(document) == 200 && NatSum(universe) == 402
    ensures var c := NormalisedComplement(universe, document);
      && c[0] == 100.0 / 101.0 && c[1] == 1.0 / 101.0
      && forall i :: 2 <= i < |c| ==> c[i] == 0.0
  {
    TwoBucketTotal(universe, 400, 2);
    TwoBucketTotal(document, 200, 0);
    var c := NormalisedComplement(universe, document);
    assert c[0] == 200.0 / 202.0 && c[1] == 2.0 / 202.0;
  }

  /** The vectors of a corpus of two documents: the first holds 100
      distinct tokens twice each, the second one further token. The 100
      tokens take ranks 0-99, bucket 0, and the further token rank 100,
      bucket 1; the other eleven buckets are empty. */
  const ExampleDocument: seq<nat> := [200, 0, 0, 0, 0, 0, 0, 0, 0, 0, 0, 0, 0]
  const ExampleUniverse: seq<nat> := [200, 1, 0, 0, 0, 0, 0, 0, 0, 0, 0, 0, 0]

  lemma ExampleVectors()
    ensures |ExampleDocument| == |ExampleUniverse| == BucketTotal
    ensures TwoBuckets(ExampleDocument, 200, 0) && TwoBuckets(ExampleUniverse, 200, 1)
  {
    BoundariesAscend();
  }

  /** A document of 200 tokens in bucket 0, in a universe whose one further
      token is in bucket 1: its distribution and its complement's do not
      overlap, so it scores the maximum, 2. */
  lemma DisjointScore(universe: seq<nat>, document: seq<nat>)
    requires TwoBuckets(universe, 200, 1) && TwoBuckets(document, 200, 0)
    requires |universe| == |document|
    ensures NatSum(document) == 200 && NatSum(universe) == 201
    ensures DocumentScore(universe, document) == 2.0
  {
    ExampleDocumentNormalised(document);
    ExampleComplementNormalised(universe, document);
    ScoreOfTwoBuckets(universe, document);
  }

  /** The same document against twice that universe, as in the corpus
      repeated twice, scores 2/101. */
  lemma DoubledUniverseScore(universe: seq<nat>, document: seq<nat>)
    requires TwoBuckets(universe, 200, 1) && TwoBuckets(document, 200, 0)
    requires |universe| == |document|
    ensures NatSum(document) == 200 && NatSum(Twice(universe)) == 402
    ensures DocumentScore(Twice(universe), document) == 2.0 / 101.0
  {
    TwiceTwoBuckets(universe, 200, 1);
    ExampleDocumentNormalised(document);
    DoubledComplementNormalised(Twice(universe), document);
    ScoreOfTwoBuckets(Twice(universe), document);
  }

  /** In the example corpus the first document scores 2, and 2/101 once
      the corpus is repeated. */
  lemma ExampleScores()
    ensures NatSum(ExampleDocument) == 200 && NatSum(ExampleUniverse) == 201
    ensures DocumentScore(ExampleUniverse, ExampleDocument) == 2.0
    ensures DocumentScore(Twice(ExampleUniverse), ExampleDocument) == 2.0 / 101.0
  {
    ExampleVectors();
    DisjointScore(ExampleUniverse, ExampleDocument);
    DoubledUniverseScore(ExampleUniverse, ExampleDocument);
  }

  /** Doubling a document's counts leaves its distribution as it was. */
  lemma NormalisedDocumentOfTwice(document: seq<nat>)
    requires NatSum(document) > 0
    ensures NatSum(Twice(document)) > 0
    ensures NormalisedDocument(Twice(document)) == NormalisedDocument(document)
  {
    var counts, counts2 := AsReal(document), AsReal(Twice(document));
    AsRealSum(document);
    AsRealSum(Twice(document));
    forall i | 0 <= i < |counts| ensures counts2[i] == 2.0 * counts[i] {
      assert Twice(document)[i] == 2 * document[i];
    }
    DivideAllOfDoubled(counts, counts2, Sum(counts), Sum(counts2));
    NormalisedDocumentIsQuotient(document);
    NormalisedDocumentIsQuotient(Twice(document));
  }

  lemma NormalisedDocumentIsQuotient(document: seq<nat>)
    requires NatSum(document) > 0
    ensures Sum(AsReal(document)) > 0.0
    ensures NormalisedDocument(document) == DivideAll(AsReal(document), Sum(AsReal(document)))
  {
    AsRealSum(document);
  }

  /** Doubling both the universe and the document doubles the complement
      and its token count. */
  lemma ComplementOfTwice(universe: seq<nat>, document: seq<nat>)
    requires |universe| == |document|
    ensures |Twice(universe)| == |Twice(document)|
    ensures ComplementTokenCount(Twice(universe), Twice(document))
      == 2.0 * ComplementTokenCount(universe, document)
    ensures var complement, complement2 := Complement(universe, document), Complement(Twice(universe), Twice(document));
      |complement2| == |complement| && forall i :: 0 <= i < |complement| ==> complement2[i] == 2.0 * complement[i]
  {
    var complement, complement2 := Complement(universe, document), Complement(Twice(universe), Twice(document));
    forall i | 0 <= i < |complement| ensures complement2[i] == 2.0 * complement[i] {
      assert AsReal(Twice(universe))[i] == 2.0 * AsReal(universe)[i];
      assert AsReal(Twice(document))[i] == 2.0 * AsReal(document)[i];
    }
  }

  /** Doubling both the universe and the document leaves the complement's
      distribution as it was. */
  lemma NormalisedComplementOfTwice(universe: seq<nat>, document: seq<nat>)
    requires |universe| == |document|
    requires NatSum(document) < NatSum(universe)
    ensures |Twice(universe)| == |Twice(document)| && NatSum(Twice(document)) < NatSum(Twice(universe))
    ensures NormalisedComplement(Twice(universe), Twice(document)) == NormalisedComplement(universe, document)
  {
    var complement := Complement(universe, document);
    var complement2 := Complement(Twice(universe), Twice(document));
    var count := ComplementTokenCount(universe, document);
    var count2 := ComplementTokenCount(Twice(universe), Twice(document));
    ComplementOfTwice(universe, document);
    DivideAllOfDoubled(complement, complement2, count, count2);
    NormalisedComplementIsQuotient(universe, document);
    NormalisedComplementIsQuotient(Twice(universe), Twice(document));
  }

  lemma NormalisedComplementIsQuotient(universe: seq<nat>, document: seq<nat>)
    requires |universe| == |document|
    requires NatSum(document) < NatSum(universe)
    ensures NormalisedComplement(universe, document)
      == DivideAll(Complement(universe, document), ComplementTokenCount(universe, document))
  {
  }

  /** The score is scale-invariant: doubling the universe and the document
      together leaves it unchanged. */
  lemma DocumentScoreOfTwice(universe: seq<nat>, document: seq<nat>)
    requires |universe| == |document|
    requires 0 < NatSum(document) < NatSum(universe)
    ensures |Twice(universe)| == |Twice(document)|
    ensures 0 < NatSum(Twice(document)) < NatSum(Twice(universe))
    ensures DocumentScore(Twice(universe), Twice(document)) == DocumentScore(universe, document)
  {
    NormalisedDocumentOfTwice(document);
    NormalisedComplementOfTwice(universe, document);
  }

  /** ScoreDocuments is defined on a corpus with every document doubled in
      place whenever it is defined on the corpus itself. */
  lemma DoubleEachScorable(docs: seq<seq<Token>>)
    requires Scorable(docs)
    ensures |Flatten(DoubleEach(docs))| == 2 * |Flatten(docs)|
    ensures Scorable(DoubleEach(docs))
  {
    FlattenOfDoubleEach(docs);
    TokenBucketsOfDoubleEach(docs);
    var s, s2 := Flatten(docs), Flatten(DoubleEach(docs));
    assert |s2| == |multiset(s2)| == |multiset(s) + multiset(s)| == 2 * |s|;
    forall k | 0 <= k < |docs| ensures 0 < |DoubleEach(docs)[k]| < |s2| {
      DoubleEachAt(docs, k);
    }
  }

  /** Each document doubled in place keeps its score. */
  lemma ScoreOfDoubleEachAt(docs: seq<seq<Token>>, k: nat)
    requires Scorable(docs)
    requires Scorable(DoubleEach(docs))
    requires k < |docs|
    ensures ScoreDocuments(DoubleEach(docs))[k] == ScoreDocuments(docs)[k]
  {
    var m := TokenBuckets(Flatten(docs));
    TokenBucketsOfDoubleEach(docs);
    UniverseOfDoubleEach(docs, m);
    DocumentVectorOfDoubleEach(docs, m, k);
    ScoreOfScaledVectors(docs, DoubleEach(docs), k, k);
  }

  /** A document whose vector and universe are both twice another's scores
      the same. */
  lemma ScoreOfScaledVectors(docs: seq<seq<Token>>, docs2: seq<seq<Token>>, k: nat, k2: nat)
    requires Scorable(docs) && Scorable(docs2) && k < |docs| && k2 < |docs2|
    requires var m, m2 := TokenBuckets(Flatten(docs)), TokenBuckets(Flatten(docs2));
      && UniverseVector(docs2, m2) == Twice(UniverseVector(docs, m))
      && DocumentVectors(docs2, m2)[k2] == Twice(DocumentVectors(docs, m)[k])
    ensures ScoreDocuments(docs2)[k2] == ScoreDocuments(docs)[k]
  {
    var m := TokenBuckets(Flatten(docs));
    DocumentScoreOfTwice(UniverseVector(docs, m), DocumentVectors(docs, m)[k]);
  }

  /** Scale invariance: doubling every document in place doubles each
      document vector and the universe, so each document's distribution
      and its complement's stay as they were, and so does every score. */
  lemma ScoreOfDoubleEach(docs: seq<seq<Token>>)
    requires Scorable(docs)
    ensures Scorable(DoubleEach(docs))
    ensures ScoreDocuments(DoubleEach(docs)) == ScoreDocuments(docs)
  {
    DoubleEachScorable(docs);
    ScoresOfDoubleEachAgree(docs);
  }

  /** Every document of a corpus doubled in place scores as before. */
  lemma ScoresOfDoubleEachAgree(docs: seq<seq<Token>>)
    requires Scorable(docs)
    requires Scorable(DoubleEach(docs))
    ensures forall k :: 0 <= k < |docs| ==> ScoreDocuments(DoubleEach(docs))[k] == ScoreDocuments(docs)[k]
  {
    forall k | 0 <= k < |docs| ensures ScoreDocuments(DoubleEach(docs))[k] == ScoreDocuments(docs)[k] {
      ScoreOfDoubleEachAt(docs, k);
    }
  }

  /** ScoreDocuments is defined on a reordering of a corpus whenever it is
      defined on the corpus itself. */
  lemma ReorderedScorable(docs: seq<seq<Token>>, docs2: seq<seq<Token>>)
    requires Scorable(docs)
    requires multiset(docs) == multiset(docs2)
    ensures multiset(Flatten(docs)) == multiset(Flatten(docs2))
    ensures Scorable(docs2)
  {
    var s, s2 := Flatten(docs), Flatten(docs2);
    FlattenOfPermutation(docs, docs2);
    assert |s2| == |multiset(s2)| == |multiset(s)| == |s|;
    forall k | 0 <= k < |docs2| ensures 0 < |docs2[k]| < |s2| {
      assert docs2[k] in multiset(docs);
      var j :| 0 <= j < |docs| && docs[j] == docs2[k];
    }
    SameContents(s, s2);
    DistinctSize(s, s2);
  }

  /** A document keeps its score when the corpus around it is reordered
      and no two tokens tie in count. */
  lemma ScoreOfReorderedAt(docs: seq<seq<Token>>, docs2: seq<seq<Token>>, k: nat, j: nat)
    requires Scorable(docs)
    requires Scorable(docs2)
    requires multiset(docs) == multiset(docs2) && multiset(Flatten(docs)) == multiset(Flatten(docs2))
    requires forall a, b :: a in Flatten(docs) && b in Flatten(docs) && a != b ==>
      Count(Flatten(docs), a) != Count(Flatten(docs), b)
    requires k < |docs2| && j < |docs| && docs2[k] == docs[j]
    ensures ScoreDocuments(docs2)[k] == ScoreDocuments(docs)[j]
  {
    var m := TokenBuckets(Flatten(docs));
    TokenBucketsOfReordered(Flatten(docs), Flatten(docs2));
    UniverseOfReordered(docs, docs2, m);
    DocumentVectorAt(docs2, m, k);
    DocumentVectorAt(docs, m, j);
  }

  /** Reordering the documents of a corpus in which no two tokens tie in
      count only reorders the scores: a document scores alike wherever it
      stands. With ties the ranking, and so the scores, can change
      (TiesFollowFirstAppearance). */
  lemma ScoreOfReorderedCorpus(docs: seq<seq<Token>>, docs2: seq<seq<Token>>)
    requires Scorable(docs)
    requires multiset(docs) == multiset(docs2)
    requires forall a, b :: a in Flatten(docs) && b in Flatten(docs) && a != b ==>
      Count(Flatten(docs), a) != Count(Flatten(docs), b)
    ensures Scorable(docs2)
    ensures forall k, j :: 0 <= k < |docs2| && 0 <= j < |docs| && docs2[k] == docs[j] ==>
      ScoreDocuments(docs2)[k] == ScoreDocuments(docs)[j]
  {
    ReorderedScorable(docs, docs2);
    forall k, j | 0 <= k < |docs2| && 0 <= j < |docs| && docs2[k] == docs[j]
      ensures ScoreDocuments(docs2)[k] == ScoreDocuments(docs)[j]
    {
      ScoreOfReorderedAt(docs, docs2, k, j);
    }
  }

  /** ScoreDocuments is defined on a corpus whose documents each have
      their tokens reordered whenever it is defined on the corpus itself. */
  lemma TokensReorderedScorable(docs: seq<seq<Token>>, docs2: seq<seq<Token>>)
    requires Scorable(docs)
    requires |docs2| == |docs|
    requires forall k :: 0 <= k < |docs| ==> multiset(docs2[k]) == multiset(docs[k])
    ensures multiset(Flatten(docs2)) == multiset(Flatten(docs))
    ensures Scorable(docs2)
  {
    var s, s2 := Flatten(docs), Flatten(docs2);
    FlattenOfTokenReorder(docs, docs2);
    assert |s2| == |multiset(s2)| == |multiset(s)| == |s|;
    forall k | 0 <= k < |docs2| ensures 0 < |docs2[k]| < |s2| {
      assert |docs2[k]| == |multiset(docs2[k])| == |multiset(docs[k])| == |docs[k]|;
    }
    SameContents(s, s2);
    DistinctSize(s, s2);
  }

  /** A document keeps its score when the tokens of every document are
      reordered and no two tokens tie in count. */
  lemma ScoreOfTokensReorderedAt(docs: seq<seq<Token>>, docs2: seq<seq<Token>>, k: nat)
    requires Scorable(docs)
    requires Scorable(docs2)
    requires |docs2| == |docs| && multiset(Flatten(docs2)) == multiset(Flatten(docs))
    requires forall a, b :: a in Flatten(docs) && b in Flatten(docs) && a != b ==>
      Count(Flatten(docs), a) != Count(Flatten(docs), b)
    requires k < |docs| && multiset(docs2[k]) == multiset(docs[k])
    ensures ScoreDocuments(docs2)[k] == ScoreDocuments(docs)[k]
  {
    var s, s2 := Flatten(docs), Flatten(docs2);
    var m := TokenBuckets(s);
    TokenBucketsOfReordered(s, s2);
    BucketVectorOfPermutation(s, s2, m);
    DocumentVectorAt(docs, m, k);
    DocumentVectorAt(docs2, m, k);
    BucketVectorOfPermutation(docs[k], docs2[k], m);
  }

  /** The order of the tokens within a document does not matter: in a
      corpus in which no two tokens tie in count, reordering the tokens of
      every document leaves every score as it was. With ties the ranking,
      and so the scores, can change (TiesFollowFirstAppearance). */
  lemma ScoreOfTokensReordered(docs: seq<seq<Token>>, docs2: seq<seq<Token>>)
    requires Scorable(docs)
    requires |docs2| == |docs|
    requires forall k :: 0 <= k < |docs| ==> multiset(docs2[k]) == multiset(docs[k])
    requires forall a, b :: a in Flatten(docs) && b in Flatten(docs) && a != b ==>
      Count(Flatten(docs), a) != Count(Flatten(docs), b)
    ensures Scorable(docs2)
    ensures ScoreDocuments(docs2) == ScoreDocuments(docs)
  {
    TokensReorderedScorable(docs, docs2);
    ScoresOfTokensReorderedAgree(docs, docs2);
  }

  /** Every document of a corpus whose documents have their tokens
      reordered scores as before, when no two tokens tie in count. */
  lemma ScoresOfTokensReorderedAgree(docs: seq<seq<Token>>, docs2: seq<seq<Token>>)
    requires Scorable(docs)
    requires Scorable(docs2)
    requires |docs2| == |docs| && multiset(Flatten(docs2)) == multiset(Flatten(docs))
    requires forall k :: 0 <= k < |docs| ==> multiset(docs2[k]) == multiset(docs[k])
    requires forall a, b :: a in Flatten(docs) && b in Flatten(docs) && a != b ==>
      Count(Flatten(docs), a) != Count(Flatten(docs), b)
    ensures ScoreDocuments(docs2) == ScoreDocuments(docs)
  {
    forall k | 0 <= k < |docs| ensures ScoreDocuments(docs2)[k] == ScoreDocuments(docs)[k] {
      ScoreOfTokensReorderedAt(docs, docs2, k);
    }
  }
}
