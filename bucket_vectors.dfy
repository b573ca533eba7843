/** Stages three and four of ScoreDocuments: the tokens of the whole corpus
    (the universe) and of each document are counted per bucket, first into
    a dictionary from bucket to count, then into a vector with one slot per
    bucket in which absent buckets are 0. */
module BucketVectors {

  import opened TokenRanking
  import opened TopNBuckets
  import opened VectorMath

  /** The number of tokens that fall in bucket b: the size of bucket b's
      group, never more than the tokens counted. */
  function Tally(tokens: seq<Token>, m: map<Token, nat>, b: nat): (n: nat)
    requires Covers(m, tokens)
    ensures n <= |tokens|
  {
    if tokens == [] then 0
    else
      var t := tokens[|tokens| - 1];
      Tally(tokens[..|tokens| - 1], m, b) + (if m[t] == b then 1 else 0)
  }

  /** The positions of the tokens that fall in bucket b. */
  ghost function PositionsIn(tokens: seq<Token>, m: map<Token, nat>, b: nat): set<nat>
    requires Covers(m, tokens)
  {
    set i | 0 <= i < |tokens| && m[tokens[i]] == b
  }

  /** Tally counts exactly the positions whose token falls in bucket b. */
  lemma {:induction false} TallyCountsPositions(tokens: seq<Token>, m: map<Token, nat>, b: nat)
    requires Covers(m, tokens)
    ensures Tally(tokens, m, b) == |PositionsIn(tokens, m, b)|
  {
    if tokens != [] {
      var init, x := tokens[..|tokens| - 1], tokens[|tokens| - 1];
      assert tokens == init + [x];
      TallyPushBack(init, x, m, b);
      TallyCountsPositions(init, m, b);
      PositionsPushBack(init, x, m, b);
    }
  }

  /** One more token adds its position to its bucket's positions. */
  lemma PositionsPushBack(init: seq<Token>, x: Token, m: map<Token, nat>, b: nat)
    requires Covers(m, init + [x])
    ensures Covers(m, init)
    ensures |PositionsIn(init + [x], m, b)|
      == |PositionsIn(init, m, b)| + (if m[x] == b then 1 else 0)
  {
    var tokens, n := init + [x], |init|;
    var before, after := PositionsIn(init, m, b), PositionsIn(tokens, m, b);
    var added: set<nat> := if m[x] == b then {n} else {};
    forall i ensures i in after <==> i in before + added {
      if 0 <= i < n {
        assert tokens[i] == init[i];
      }
    }
    assert after == before + added;
    assert n !in before;
  }

  /** GroupBy(o => tokensToTopNBucket[o]).ToDictionary(o => o.Key, o => o.Count()):
      a bucket is a key exactly when some token falls in it, and its value
      is how many do. */
  function Histogram(tokens: seq<Token>, m: map<Token, nat>): (h: map<nat, nat>)
    requires Covers(m, tokens)
    ensures forall b :: b in h <==> Tally(tokens, m, b) > 0
    ensures forall b :: b in h ==> h[b] == Tally(tokens, m, b)
  {
    if tokens == [] then map[]
    else
      var h := Histogram(tokens[..|tokens| - 1], m);
      var b := m[tokens[|tokens| - 1]];
      h[b := (if b in h then h[b] else 0) + 1]
  }

  /** _topNTermBuckets.Select((o, i) => dict.ContainsKey(i) ? dict[i] : 0.0)
      over the histogram: slot b holds the number of tokens in bucket b. */
  function BucketVector(tokens: seq<Token>, m: map<Token, nat>): (v: seq<nat>)
    requires Covers(m, tokens)
    ensures |v| == BucketTotal
    ensures forall b :: 0 <= b < BucketTotal ==> v[b] == Tally(tokens, m, b)
  {
    var h := Histogram(tokens, m);
    seq(BucketTotal, b => if b in h then h[b] else 0)
  }

  /** A map that covers a token list covers its parts, and conversely. */
  lemma CoversAppend(m: map<Token, nat>, a: seq<Token>, c: seq<Token>)
    ensures Covers(m, a + c) <==> Covers(m, a) && Covers(m, c)
  {
  }

  /** Counting the tokens of two pieces adds up. */
  lemma {:induction false} TallyAppend(a: seq<Token>, c: seq<Token>, m: map<Token, nat>, b: nat)
    requires Covers(m, a) && Covers(m, c)
    ensures Covers(m, a + c) && Tally(a + c, m, b) == Tally(a, m, b) + Tally(c, m, b)
  {
    CoversAppend(m, a, c);
    if c == [] {
      assert a + c == a;
    } else {
      var init, last := c[..|c| - 1], c[|c| - 1];
      assert c == init + [last];
      CoversAppend(m, init, [last]);
      TallyAppend(a, init, m, b);
      var ac := a + c;
      assert ac[..|ac| - 1] == a + init && ac[|ac| - 1] == last;
      calc {
        Tally(ac, m, b);
        Tally(a + init, m, b) + (if m[last] == b then 1 else 0);
        Tally(a, m, b) + Tally(init, m, b) + (if m[last] == b then 1 else 0);
        Tally(a, m, b) + Tally(c, m, b);
      }
    }
  }

  /** Bucket vectors of concatenated token lists add pointwise. */
  lemma BucketVectorAppend(a: seq<Token>, c: seq<Token>, m: map<Token, nat>)
    requires Covers(m, a) && Covers(m, c)
    ensures Covers(m, a + c)
    ensures forall b :: 0 <= b < BucketTotal ==>
      BucketVector(a + c, m)[b] == BucketVector(a, m)[b] + BucketVector(c, m)[b]
  {
    forall b | 0 <= b < BucketTotal
      ensures Tally(a + c, m, b) == Tally(a, m, b) + Tally(c, m, b)
    {
      TallyAppend(a, c, m, b);
    }
  }

  /** Adding one to a slot adds one to the total. */
  lemma {:induction false} NatSumIncrement(v: seq<nat>, w: seq<nat>, k: nat)
    requires |v| == |w| && k < |v|
    requires w[k] == v[k] + 1
    requires forall b :: 0 <= b < |v| && b != k ==> w[b] == v[b]
    ensures NatSum(w) == NatSum(v) + 1
  {
    if k == 0 {
      assert v[1..] == w[1..];
    } else {
      NatSumIncrement(v[1..], w[1..], k - 1);
    }
  }

  lemma {:induction false} NatSumZero(v: seq<nat>)
    requires forall b :: 0 <= b < |v| ==> v[b] == 0
    ensures NatSum(v) == 0
  {
    if v != [] {
      NatSumZero(v[1..]);
    }
  }

  /** Every token lands in exactly one slot, so a bucket vector adds up to
      the number of tokens counted. */
  lemma {:induction false} BucketVectorSum(tokens: seq<Token>, m: map<Token, nat>)
    requires Covers(m, tokens)
    ensures NatSum(BucketVector(tokens, m)) == |tokens|
  {
    if tokens == [] {
      NatSumZero(BucketVector(tokens, m));
    } else {
      var init := tokens[..|tokens| - 1];
      BucketVectorSum(init, m);
      NatSumIncrement(BucketVector(init, m), BucketVector(tokens, m), m[tokens[|tokens| - 1]]);
    }
  }

  /** The universe vector (line 32): the bucket vector of the flattened
      corpus. */
  function UniverseVector(docs: seq<seq<Token>>, m: map<Token, nat>): (v: seq<nat>)
    requires Covers(m, Flatten(docs))
    ensures |v| == BucketTotal
    ensures NatSum(v) == |Flatten(docs)|
  {
    BucketVectorSum(Flatten(docs), m);
    BucketVector(Flatten(docs), m)
  }

  /** A document's tokens all have buckets when the corpus' do. */
  lemma DocumentsCovered(docs: seq<seq<Token>>, m: map<Token, nat>)
    requires Covers(m, Flatten(docs))
    ensures forall k :: 0 <= k < |docs| ==> Covers(m, docs[k])
  {
    forall k, t | 0 <= k < |docs| && t in docs[k]
      ensures t in m && m[t] < BucketTotal
    {
      assert t in Flatten(docs);
    }
  }

  /** A document holds no more tokens of a bucket than the whole corpus. */
  lemma {:induction false} TallyWithinCorpus(docs: seq<seq<Token>>, m: map<Token, nat>, k: nat, b: nat)
    requires Covers(m, Flatten(docs)) && k < |docs|
    ensures Covers(m, docs[k]) && Tally(docs[k], m, b) <= Tally(Flatten(docs), m, b)
  {
    var init, last := docs[..|docs| - 1], docs[|docs| - 1];
    assert Flatten(docs) == Flatten(init) + last;
    CoversAppend(m, Flatten(init), last);
    TallyAppend(Flatten(init), last, m, b);
    DocumentsCovered(docs, m);
    if k < |docs| - 1 {
      assert init[k] == docs[k];
      TallyWithinCorpus(init, m, k, b);
    }
  }

  /** The document vectors (lines 35-37), one per document in input order.
      Each adds up to its document's length and lies inside the universe
      vector, so every complement slot universe[b] - document[b] is
      non-negative. */
  function DocumentVectors(docs: seq<seq<Token>>, m: map<Token, nat>): (vs: seq<seq<nat>>)
    requires Covers(m, Flatten(docs))
    ensures |vs| == |docs|
    ensures forall k :: 0 <= k < |docs| ==> |vs[k]| == BucketTotal
    ensures forall k :: 0 <= k < |docs| ==> NatSum(vs[k]) == |docs[k]|
    ensures forall k :: 0 <= k < |docs| ==> PointwiseAtMost(vs[k], UniverseVector(docs, m))
  {
    DocumentsCovered(docs, m);
    forall k | 0 <= k < |docs|
      ensures NatSum(BucketVector(docs[k], m)) == |docs[k]|
      ensures PointwiseAtMost(BucketVector(docs[k], m), UniverseVector(docs, m))
    {
      BucketVectorSum(docs[k], m);
      forall b | 0 <= b < BucketTotal ensures Tally(docs[k], m, b) <= Tally(Flatten(docs), m, b) {
        TallyWithinCorpus(docs, m, k, b);
      }
    }
    seq(|docs|, k requires 0 <= k < |docs| => BucketVector(docs[k], m))
  }

  /** Taking out the token at position j takes it out of its bucket's
      count. */
  lemma TallyRemoveAt(c: seq<Token>, m: map<Token, nat>, b: nat, j: nat)
    requires Covers(m, c) && j < |c|
    ensures Covers(m, c[..j] + c[j + 1..])
    ensures Tally(c, m, b) == Tally(c[..j] + c[j + 1..], m, b) + (if m[c[j]] == b then 1 else 0)
  {
    var left, x, right := c[..j], c[j], c[j + 1..];
    assert c == (left + [x]) + right;
    CoversAppend(m, left + [x], right);
    TallyPushBack(left, x, m, b);
    TallyAppend(left + [x], right, m, b);
    TallyAppend(left, right, m, b);
  }

  /** One more token adds one to its bucket's count. */
  lemma TallyPushBack(left: seq<Token>, x: Token, m: map<Token, nat>, b: nat)
    requires Covers(m, left + [x])
    ensures Covers(m, left)
    ensures Tally(left + [x], m, b) == Tally(left, m, b) + (if m[x] == b then 1 else 0)
  {
    assert (left + [x])[..|left|] == left;
  }

  /** The order of a document's tokens does not matter: two token lists
      holding the same tokens, as often each, fall into the buckets of one
      map alike. */
  lemma {:induction false} TallyOfPermutation(a: seq<Token>, c: seq<Token>, m: map<Token, nat>, b: nat)
    requires Covers(m, a) && multiset(a) == multiset(c)
    ensures Covers(m, c) && Tally(a, m, b) == Tally(c, m, b)
    decreases |a|
  {
    assert Covers(m, c) by {
      forall t | t in c ensures t in a {
        assert t in multiset(a);
      }
    }
    if a != [] {
      var init, x := a[..|a| - 1], a[|a| - 1];
      assert x in multiset(c);
      var j :| 0 <= j < |c| && c[j] == x;
      RemoveMatching(a, c, j);
      TallyRemoveAt(c, m, b, j);
      assert Covers(m, init) by {
        assert a == init + [x];
        CoversAppend(m, init, [x]);
      }
      TallyOfPermutation(init, c[..j] + c[j + 1..], m, b);
    }
  }

  /** Hence a document's bucket vector depends only on how often each
      token occurs in it. */
  lemma BucketVectorOfPermutation(a: seq<Token>, c: seq<Token>, m: map<Token, nat>)
    requires Covers(m, a) && multiset(a) == multiset(c)
    ensures Covers(m, c) && BucketVector(a, m) == BucketVector(c, m)
  {
    TallyOfPermutation(a, c, m, 0);
    forall b | 0 <= b < BucketTotal ensures Tally(a, m, b) == Tally(c, m, b) {
      TallyOfPermutation(a, c, m, b);
    }
  }

  /** The k-th document vector is the bucket vector of the k-th document. */
  lemma DocumentVectorAt(docs: seq<seq<Token>>, m: map<Token, nat>, k: nat)
    requires Covers(m, Flatten(docs)) && k < |docs|
    ensures Covers(m, docs[k]) && DocumentVectors(docs, m)[k] == BucketVector(docs[k], m)
  {
    DocumentsCovered(docs, m);
  }

  /** The pointwise sum of a list of vectors of BucketTotal slots. */
  function Total(vs: seq<seq<nat>>): (t: seq<nat>)
    requires forall k :: 0 <= k < |vs| ==> |vs[k]| == BucketTotal
    ensures |t| == BucketTotal
  {
    if vs == [] then seq(BucketTotal, b => 0)
    else
      var init, last := Total(vs[..|vs| - 1]), vs[|vs| - 1];
      seq(BucketTotal, b requires 0 <= b < BucketTotal => init[b] + last[b])
  }

  /** The universe vector is the pointwise sum of the document vectors. */
  lemma {:induction false} UniverseIsTotalOfDocuments(docs: seq<seq<Token>>, m: map<Token, nat>)
    requires Covers(m, Flatten(docs))
    ensures UniverseVector(docs, m) == Total(DocumentVectors(docs, m))
  {
    var u, vs := UniverseVector(docs, m), DocumentVectors(docs, m);
    if docs == [] {
      forall b | 0 <= b < BucketTotal ensures u[b] == Total(vs)[b] {
        assert Tally([], m, b) == 0;
      }
    } else {
      var init, last := docs[..|docs| - 1], docs[|docs| - 1];
      assert Flatten(docs) == Flatten(init) + last;
      CoversAppend(m, Flatten(init), last);
      UniverseIsTotalOfDocuments(init, m);
      assert vs[..|docs| - 1] == DocumentVectors(init, m);
      forall b | 0 <= b < BucketTotal ensures u[b] == Total(vs)[b] {
        TallyAppend(Flatten(init), last, m, b);
        assert u[b] == UniverseVector(init, m)[b] + vs[|docs| - 1][b];
      }
    }
  }

  /** Repeating the corpus doubles the universe vector. */
  lemma UniverseOfRepeated(docs: seq<seq<Token>>, m: map<Token, nat>)
    requires Covers(m, Flatten(docs))
    ensures Flatten(docs + docs) == Flatten(docs) + Flatten(docs)
    ensures Covers(m, Flatten(docs + docs))
    ensures UniverseVector(docs + docs, m) == Twice(UniverseVector(docs, m))
  {
    FlattenAppend(docs, docs);
    CoversAppend(m, Flatten(docs), Flatten(docs));
    forall b | 0 <= b < BucketTotal
      ensures Tally(Flatten(docs + docs), m, b) == 2 * Tally(Flatten(docs), m, b)
    {
      TallyAppend(Flatten(docs), Flatten(docs), m, b);
    }
  }

  /** Repeating the corpus leaves the vector of every original document as
      it was. */
  lemma DocumentVectorsOfRepeated(docs: seq<seq<Token>>, m: map<Token, nat>)
    requires Covers(m, Flatten(docs)) && Covers(m, Flatten(docs + docs))
    ensures forall k :: 0 <= k < |docs| ==>
      DocumentVectors(docs + docs, m)[k] == DocumentVectors(docs, m)[k]
  {
    forall k | 0 <= k < |docs|
      ensures DocumentVectors(docs + docs, m)[k] == DocumentVectors(docs, m)[k]
    {
      DocumentVectorAt(docs + docs, m, k);
      DocumentVectorAt(docs, m, k);
      assert (docs + docs)[k] == docs[k];
    }
  }

  /** Doubling every document in place doubles the universe vector. */
  lemma UniverseOfDoubleEach(docs: seq<seq<Token>>, m: map<Token, nat>)
    requires Covers(m, Flatten(docs))
    ensures Covers(m, Flatten(DoubleEach(docs)))
    ensures UniverseVector(DoubleEach(docs), m) == Twice(UniverseVector(docs, m))
  {
    var s, s2 := Flatten(docs), Flatten(DoubleEach(docs));
    FlattenOfDoubleEach(docs);
    CoversAppend(m, s, s);
    TallyOfPermutation(s + s, s2, m, 0);
    forall b | 0 <= b < BucketTotal ensures Tally(s2, m, b) == 2 * Tally(s, m, b) {
      TallyOfPermutation(s + s, s2, m, b);
      TallyAppend(s, s, m, b);
    }
  }

  /** A token list followed by itself has twice its bucket vector. */
  lemma BucketVectorOfTwice(d: seq<Token>, m: map<Token, nat>)
    requires Covers(m, d)
    ensures Covers(m, d + d) && BucketVector(d + d, m) == Twice(BucketVector(d, m))
  {
    var v, w := BucketVector(d, m), BucketVector(d + d, m);
    BucketVectorAppend(d, d, m);
    forall b | 0 <= b < BucketTotal ensures w[b] == Twice(v)[b] {
      assert w[b] == v[b] + v[b];
    }
  }

  /** Doubling every document in place doubles each document's vector. */
  lemma DocumentVectorOfDoubleEach(docs: seq<seq<Token>>, m: map<Token, nat>, k: nat)
    requires Covers(m, Flatten(docs)) && Covers(m, Flatten(DoubleEach(docs))) && k < |docs|
    ensures DocumentVectors(DoubleEach(docs), m)[k] == Twice(DocumentVectors(docs, m)[k])
  {
    DoubleEachAt(docs, k);
    DocumentVectorAt(DoubleEach(docs), m, k);
    DocumentVectorAt(docs, m, k);
    BucketVectorOfTwice(docs[k], m);
  }

  /** Reordering the documents leaves the universe vector as it was. */
  lemma UniverseOfReordered(docs: seq<seq<Token>>, docs2: seq<seq<Token>>, m: map<Token, nat>)
    requires multiset(docs) == multiset(docs2) && Covers(m, Flatten(docs))
    ensures Covers(m, Flatten(docs2))
    ensures UniverseVector(docs2, m) == UniverseVector(docs, m)
  {
    FlattenOfPermutation(docs, docs2);
    BucketVectorOfPermutation(Flatten(docs), Flatten(docs2), m);
  }
}
