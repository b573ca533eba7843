/** Stage one of ScoreDocuments: the corpus is flattened, identical tokens
    are grouped and the groups are ordered by descending count.
    LINQ's GroupBy yields the groups in the order in which each key first
    appears, and OrderByDescending is a stable sort, so tokens of equal
    count keep their first-appearance order. The ranking is therefore the
    one ordering in which each token precedes the next by the order
    Before: a higher count first, and among equal counts the earlier first
    appearance. */
module TokenRanking {

  type Token = string

  /** SelectMany(o => o): the tokens of all documents, in document order. */
  function Flatten(docs: seq<seq<Token>>): (s: seq<Token>)
    ensures forall t :: t in s <==> exists k :: 0 <= k < |docs| && t in docs[k]
  {
    if docs == [] then []
    else
      var s := Flatten(docs[..|docs| - 1]) + docs[|docs| - 1];
      assert forall t :: t in s ==> exists k :: 0 <= k < |docs| && t in docs[k] by {
        forall t | t in s ensures exists k :: 0 <= k < |docs| && t in docs[k] {
          if t !in docs[|docs| - 1] {
            var k :| 0 <= k < |docs| - 1 && t in docs[..|docs| - 1][k];
            assert t in docs[k];
          }
        }
      }
      s
  }

  /** The size of a token's group: how often it occurs. A token has a
      group exactly when it occurs. */
  function Count(s: seq<Token>, t: Token): (c: nat)
    ensures c > 0 <==> t in s
  {
    multiset(s)[t]
  }

  /** The position of the first occurrence of a token. */
  function FirstIndex(s: seq<Token>, t: Token): (k: nat)
    requires t in s
    ensures k < |s| && s[k] == t
    ensures forall j :: 0 <= j < k ==> s[j] != t
  {
    if s[0] == t then 0 else 1 + FirstIndex(s[1..], t)
  }

  /** Extending a sequence does not move the first occurrence of a token
      that is already there. */
  lemma FirstIndexOfPrefix(p: seq<Token>, q: seq<Token>, t: Token)
    requires t in p
    ensures t in p + q && FirstIndex(p + q, t) == FirstIndex(p, t)
  {
    var s := p + q;
    var k1, k2 := FirstIndex(s, t), FirstIndex(p, t);
    assert s[k2] == t;
  }

  /** The strict order of the ranking: more frequent first, and among
      equally frequent tokens the one that appears first in the corpus. */
  predicate Before(s: seq<Token>, a: Token, b: Token)
    requires a in s && b in s
  {
    Count(s, a) > Count(s, b)
      || (Count(s, a) == Count(s, b) && FirstIndex(s, a) < FirstIndex(s, b))
  }

  /** r lists tokens of s, each strictly Before the ones after it. */
  predicate RankedBy(s: seq<Token>, r: seq<Token>)
  {
    && (forall i :: 0 <= i < |r| ==> r[i] in s)
    && (forall i, j :: 0 <= i < j < |r| ==> Before(s, r[i], r[j]))
  }

  /** GroupBy(o => o) keys: each distinct token once, in the order of first
      occurrence. */
  function Distinct(s: seq<Token>): (d: seq<Token>)
    ensures forall t :: t in d <==> t in s
    ensures forall i, j :: 0 <= i < j < |d| ==> FirstIndex(s, d[i]) < FirstIndex(s, d[j])
  {
    if s == [] then []
    else
      var p, x := s[..|s| - 1], s[|s| - 1];
      assert s == p + [x];
      var d := Distinct(p);
      forall t | t in p ensures FirstIndex(s, t) == FirstIndex(p, t) {
        FirstIndexOfPrefix(p, [x], t);
      }
      if x in d then d
      else
        assert FirstIndex(s, x) == |p|;
        d + [x]
  }

  /** One step of a stable sort by descending count: x goes after every
      token whose count is at least its own. */
  function InsertByCount(s: seq<Token>, x: Token, r: seq<Token>): (q: seq<Token>)
    ensures multiset(q) == multiset(r) + multiset{x}
  {
    if r == [] || Count(s, r[0]) < Count(s, x) then [x] + r
    else
      assert r == [r[0]] + r[1..];
      [r[0]] + InsertByCount(s, x, r[1..])
  }

  /** OrderByDescending(o => o.Count()), as an insertion sort that takes the
      input from the front: later inputs of equal count end up behind. */
  function SortByCount(s: seq<Token>, xs: seq<Token>): (r: seq<Token>)
    ensures multiset(r) == multiset(xs)
  {
    if xs == [] then []
    else
      assert xs == xs[..|xs| - 1] + [xs[|xs| - 1]];
      InsertByCount(s, xs[|xs| - 1], SortByCount(s, xs[..|xs| - 1]))
  }

  /** Inserting a token that first appears after all tokens already ranked
      keeps the ranking ordered. */
  lemma {:induction false} InsertKeepsRanked(s: seq<Token>, x: Token, r: seq<Token>)
    requires x in s && RankedBy(s, r)
    requires forall y :: y in r ==> FirstIndex(s, y) < FirstIndex(s, x)
    ensures RankedBy(s, InsertByCount(s, x, r))
  {
    var q := InsertByCount(s, x, r);
    if r == [] || Count(s, r[0]) < Count(s, x) {
      forall j | 0 < j < |q| ensures Before(s, q[0], q[j]) {
        assert Before(s, r[0], r[j - 1]) || j - 1 == 0;
      }
    } else {
      var tail := InsertByCount(s, x, r[1..]);
      InsertKeepsRanked(s, x, r[1..]);
      assert q == [r[0]] + tail;
      forall j | 0 < j < |q| ensures Before(s, q[0], q[j]) {
        assert q[j] in multiset(tail);
        assert q[j] in r[1..] || q[j] == x;
        if q[j] in r[1..] {
          var k :| 0 <= k < |r[1..]| && r[1..][k] == q[j];
          assert Before(s, r[0], r[k + 1]);
        }
      }
    }
  }

  /** Sorting tokens listed in first-appearance order yields a ranking. */
  lemma {:induction false} SortIsRanked(s: seq<Token>, xs: seq<Token>)
    requires forall i :: 0 <= i < |xs| ==> xs[i] in s
    requires forall i, j :: 0 <= i < j < |xs| ==> FirstIndex(s, xs[i]) < FirstIndex(s, xs[j])
    ensures RankedBy(s, SortByCount(s, xs))
  {
    if xs != [] {
      var init, x := xs[..|xs| - 1], xs[|xs| - 1];
      SortIsRanked(s, init);
      var r := SortByCount(s, init);
      forall y | y in r ensures FirstIndex(s, y) < FirstIndex(s, x) {
        assert y in multiset(init);
        var k :| 0 <= k < |init| && init[k] == y;
      }
      InsertKeepsRanked(s, x, r);
    }
  }

  /** The ranking of the corpus' distinct tokens (lines 20-23). Every token
      of the corpus is ranked exactly once, and rank order is the order
      Before. */
  function Ranking(s: seq<Token>): (r: seq<Token>)
    ensures |r| == |Distinct(s)|
    ensures forall t :: t in r <==> t in s
    ensures forall i, j :: 0 <= i < j < |r| ==> r[i] != r[j]
    ensures RankedBy(s, r)
  {
    SortIsRanked(s, Distinct(s));
    var r := SortByCount(s, Distinct(s));
    assert |r| == |multiset(r)| == |multiset(Distinct(s))| == |Distinct(s)|;
    assert forall t :: t in r <==> t in multiset(Distinct(s));
    r
  }

  /** No token is ranked twice, and of two ranked tokens the one ranked
      first is exactly the one that comes Before. */
  lemma RankOrder(s: seq<Token>, i: nat, j: nat)
    requires i < |Ranking(s)| && j < |Ranking(s)|
    ensures Ranking(s)[i] == Ranking(s)[j] <==> i == j
    ensures i < j <==> Before(s, Ranking(s)[i], Ranking(s)[j])
  {
    var r := Ranking(s);
    if j < i {
      assert Before(s, r[j], r[i]);
    }
  }

  /** A strictly more frequent token is ranked earlier. */
  lemma MoreFrequentRankedEarlier(s: seq<Token>, i: nat, j: nat)
    requires i < |Ranking(s)| && j < |Ranking(s)|
    requires Count(s, Ranking(s)[i]) > Count(s, Ranking(s)[j])
    ensures i < j
  {
    if j < i {
      RankOrder(s, j, i);
    }
  }

  /** Before is a strict order: no token comes before itself, and of two
      tokens at most one comes before the other. */
  lemma BeforeAsymmetric(s: seq<Token>, a: Token, b: Token)
    requires a in s && b in s
    ensures !(Before(s, a, b) && Before(s, b, a))
    ensures a != b ==> Before(s, a, b) || Before(s, b, a)
  {
    if a != b && Count(s, a) == Count(s, b) {
      assert s[FirstIndex(s, a)] == a && s[FirstIndex(s, b)] == b;
    }
  }

  lemma NonEmptyHasMember(r: seq<Token>)
    ensures r != [] ==> r[0] in r
  {
  }

  /** Two rankings of the same tokens are the same sequence. */
  lemma {:induction false} RankedByUnique(s: seq<Token>, q: seq<Token>, r: seq<Token>)
    requires RankedBy(s, q) && RankedBy(s, r)
    requires forall t :: t in q <==> t in r
    ensures q == r
  {
    if q == [] {
      NonEmptyHasMember(r);
    } else {
      assert r != [] by {
        assert q[0] in r;
      }
      if q[0] != r[0] {
        assert r[0] in q && q[0] in r;
        var j :| 0 <= j < |q| && q[j] == r[0];
        var k :| 0 <= k < |r| && r[k] == q[0];
        BeforeAsymmetric(s, q[0], r[0]);
        assert false;
      }
      assert RankedBy(s, q[1..]) && RankedBy(s, r[1..]);
      forall t ensures t in q[1..] <==> t in r[1..] {
        if t in q[1..] {
          var i :| 1 <= i < |q| && q[i] == t;
          assert Before(s, q[0], q[i]);
          BeforeAsymmetric(s, t, t);
          assert t in r && t != r[0];
          var j :| 0 <= j < |r| && r[j] == t;
          assert r[1..][j - 1] == t;
        }
        if t in r[1..] {
          var i :| 1 <= i < |r| && r[i] == t;
          assert Before(s, r[0], r[i]);
          BeforeAsymmetric(s, t, t);
          assert t in q && t != q[0];
          var j :| 0 <= j < |q| && q[j] == t;
          assert q[1..][j - 1] == t;
        }
      }
      RankedByUnique(s, q[1..], r[1..]);
      assert q == [q[0]] + q[1..] && r == [r[0]] + r[1..];
    }
  }

  /** The ranking is the only ordering of the corpus' distinct tokens in
      which each token comes Before the ones after it: whatever sort
      realises OrderByDescending's stable order yields exactly Ranking. */
  lemma RankingUnique(s: seq<Token>, r: seq<Token>)
    requires RankedBy(s, r)
    requires forall t :: t in r <==> t in s
    ensures r == Ranking(s)
  {
    RankedByUnique(s, r, Ranking(s));
  }

  /** Flattening distributes over concatenation of corpora. */
  lemma {:induction false} FlattenAppend(d1: seq<seq<Token>>, d2: seq<seq<Token>>)
    ensures Flatten(d1 + d2) == Flatten(d1) + Flatten(d2)
    decreases |d2|
  {
    if d2 != [] {
      var init := d2[..|d2| - 1];
      assert (d1 + d2)[..|d1 + d2| - 1] == d1 + init;
      FlattenAppend(d1, init);
    } else {
      assert d1 + d2 == d1;
    }
  }

  /** Repeating the corpus doubles every count and moves no first
      occurrence, so the ranking stays the same. */
  lemma RankingOfRepeated(s: seq<Token>)
    ensures Ranking(s + s) == Ranking(s)
  {
    var r := Ranking(s);
    assert multiset(s + s) == multiset(s) + multiset(s);
    forall t | t in s ensures FirstIndex(s + s, t) == FirstIndex(s, t) {
      FirstIndexOfPrefix(s, s, t);
    }
    assert RankedBy(s + s, r) by {
      forall i, j | 0 <= i < j < |r| ensures Before(s + s, r[i], r[j]) {
        assert Before(s, r[i], r[j]);
      }
    }
    RankingUnique(s + s, r);
  }

  /** Lists with the same contents have the same members and counts. */
  lemma SameContents(s: seq<Token>, s2: seq<Token>)
    requires multiset(s) == multiset(s2)
    ensures forall t :: t in s <==> t in s2
    ensures forall t :: Count(s, t) == Count(s2, t)
  {
    forall t ensures t in s <==> t in s2 {
      assert t in s <==> t in multiset(s);
      assert t in s2 <==> t in multiset(s2);
    }
  }

  /** Of two tokens with different counts, the more frequent comes Before
      in any list with the same contents. */
  lemma BeforeByCount(s: seq<Token>, s2: seq<Token>, a: Token, b: Token)
    requires multiset(s) == multiset(s2)
    requires a in s && b in s && Count(s, a) != Count(s, b) && Before(s, a, b)
    ensures a in s2 && b in s2 && Before(s2, a, b)
  {
    SameContents(s, s2);
  }

  /** When no two distinct tokens occur equally often, the ranking depends
      only on the counts: any reordering of the corpus ranks alike. */
  lemma RankingWithoutTies(s: seq<Token>, s2: seq<Token>)
    requires multiset(s) == multiset(s2)
    requires forall a, b :: a in s && b in s && a != b ==> Count(s, a) != Count(s, b)
    ensures Ranking(s2) == Ranking(s)
  {
    var r := Ranking(s);
    SameContents(s, s2);
    forall i, j | 0 <= i < j < |r| ensures Before(s2, r[i], r[j]) {
      BeforeByCount(s, s2, r[i], r[j]);
    }
    RankingUnique(s2, r);
  }

  /** Among equally frequent tokens the ranking follows first appearance,
      so reordering a corpus with ties can reorder its ranking. */
  lemma TiesFollowFirstAppearance()
    ensures Ranking(["a", "b"]) == ["a", "b"]
    ensures Ranking(["b", "a"]) == ["b", "a"]
  {
    var ab, ba: seq<Token> := ["a", "b"], ["b", "a"];
    assert "a" != "b" by {
      assert "a"[0] != "b"[0];
    }
    assert multiset(ab)["a"] == 1 && multiset(ab)["b"] == 1;
    assert multiset(ba)["a"] == 1 && multiset(ba)["b"] == 1;
    assert FirstIndex(ab, "a") == 0 && FirstIndex(ab, "b") == 1;
    assert FirstIndex(ba, "b") == 0 && FirstIndex(ba, "a") == 1;
    assert RankedBy(ab, ab) && RankedBy(ba, ba);
    RankingUnique(ab, ab);
    RankingUnique(ba, ba);
  }

  /** Taking the last element off one list and a matching element off
      another with the same contents leaves lists with the same contents. */
  lemma RemoveMatching<T>(a: seq<T>, c: seq<T>, j: nat)
    requires a != [] && multiset(a) == multiset(c)
    requires j < |c| && c[j] == a[|a| - 1]
    ensures multiset(a[..|a| - 1]) == multiset(c[..j] + c[j + 1..])
  {
    var init, x := a[..|a| - 1], a[|a| - 1];
    var left, right := c[..j], c[j + 1..];
    assert a == init + [x];
    assert multiset(a) == multiset(init) + multiset{x};
    assert c == left + ([x] + right);
    assert multiset(c) == multiset(left) + multiset{x} + multiset(right);
    assert multiset(left + right) == multiset(left) + multiset(right);
    assert multiset(init) == multiset(a) - multiset{x};
    assert multiset(left + right) == multiset(c) - multiset{x};
  }

  /** A list without repeats has as many elements as members. */
  lemma {:induction false} MembersOfUnique(d: seq<Token>)
    requires forall i, j :: 0 <= i < j < |d| ==> d[i] != d[j]
    ensures |set t | t in d| == |d|
  {
    if d != [] {
      var init, x := d[..|d| - 1], d[|d| - 1];
      MembersOfUnique(init);
      assert (set t | t in d) == (set t | t in init) + {x};
      assert x !in init;
    }
  }

  /** The number of groups depends only on which tokens occur. */
  lemma DistinctSize(s: seq<Token>, s2: seq<Token>)
    requires forall t :: t in s <==> t in s2
    ensures |Distinct(s)| == |Distinct(s2)|
  {
    var d, d2 := Distinct(s), Distinct(s2);
    MembersOfUnique(d);
    MembersOfUnique(d2);
    assert (set t | t in d) == (set t | t in d2);
  }

  /** Reordering the documents reorders the flattened corpus: the same
      tokens occur, as often each. */
  lemma {:induction false} FlattenOfPermutation(docs: seq<seq<Token>>, docs2: seq<seq<Token>>)
    requires multiset(docs) == multiset(docs2)
    ensures multiset(Flatten(docs)) == multiset(Flatten(docs2))
    decreases |docs|
  {
    if docs == [] {
      assert |docs2| == |multiset(docs2)| == 0;
    } else {
      var init, d := docs[..|docs| - 1], docs[|docs| - 1];
      assert d in multiset(docs2);
      var j :| 0 <= j < |docs2| && docs2[j] == d;
      var left, right := docs2[..j], docs2[j + 1..];
      RemoveMatching(docs, docs2, j);
      FlattenOfPermutation(init, left + right);
      assert docs2 == (left + [d]) + right;
      FlattenAppend(left + [d], right);
      FlattenAppend(left, [d]);
      FlattenAppend(left, right);
      assert Flatten([d]) == d by {
        assert [d][..0] == [];
      }
    }
  }

  /** Reordering the tokens within each document reorders the flattened
      corpus: the same tokens occur, as often each. */
  lemma {:induction false} FlattenOfTokenReorder(docs: seq<seq<Token>>, docs2: seq<seq<Token>>)
    requires |docs2| == |docs|
    requires forall k :: 0 <= k < |docs| ==> multiset(docs2[k]) == multiset(docs[k])
    ensures multiset(Flatten(docs2)) == multiset(Flatten(docs))
    decreases |docs|
  {
    if docs != [] {
      var n := |docs| - 1;
      var init, init2 := docs[..n], docs2[..n];
      assert forall k :: 0 <= k < n ==> init[k] == docs[k] && init2[k] == docs2[k];
      FlattenOfTokenReorder(init, init2);
      assert multiset(docs2[n]) == multiset(docs[n]);
    }
  }

  /** Tokens already seen start no new group. */
  lemma {:induction false} DistinctOfSeen(p: seq<Token>, q: seq<Token>)
    requires forall t :: t in q ==> t in p
    ensures Distinct(p + q) == Distinct(p)
    decreases |q|
  {
    if q == [] {
      assert p + q == p;
    } else {
      var init := q[..|q| - 1];
      assert (p + q)[..|p + q| - 1] == p + init;
      DistinctOfSeen(p, init);
    }
  }

  /** The groups of p + q depend on p only through the groups of p. */
  lemma {:induction false} DistinctOfSameStart(p1: seq<Token>, p2: seq<Token>, q: seq<Token>)
    requires Distinct(p1) == Distinct(p2)
    ensures Distinct(p1 + q) == Distinct(p2 + q)
    decreases |q|
  {
    if q == [] {
      assert p1 + q == p1 && p2 + q == p2;
    } else {
      var init := q[..|q| - 1];
      assert (p1 + q)[..|p1 + q| - 1] == p1 + init;
      assert (p2 + q)[..|p2 + q| - 1] == p2 + init;
      DistinctOfSameStart(p1, p2, init);
    }
  }

  /** Insertion compares counts only, so doubling every count inserts
      alike. */
  lemma {:induction false} InsertByDoubledCount(s: seq<Token>, s2: seq<Token>, x: Token, r: seq<Token>)
    requires forall t :: Count(s2, t) == 2 * Count(s, t)
    ensures InsertByCount(s2, x, r) == InsertByCount(s, x, r)
  {
    if r != [] {
      InsertByDoubledCount(s, s2, x, r[1..]);
    }
  }

  lemma {:induction false} SortByDoubledCount(s: seq<Token>, s2: seq<Token>, xs: seq<Token>)
    requires forall t :: Count(s2, t) == 2 * Count(s, t)
    ensures SortByCount(s2, xs) == SortByCount(s, xs)
  {
    if xs != [] {
      var init := xs[..|xs| - 1];
      SortByDoubledCount(s, s2, init);
      InsertByDoubledCount(s, s2, xs[|xs| - 1], SortByCount(s, init));
    }
  }

  /** A corpus with the same groups in the same order, each twice as
      large, ranks alike. */
  lemma RankingOfDoubledCounts(s: seq<Token>, s2: seq<Token>)
    requires Distinct(s2) == Distinct(s)
    requires forall t :: Count(s2, t) == 2 * Count(s, t)
    ensures Ranking(s2) == Ranking(s)
  {
    SortByDoubledCount(s, s2, Distinct(s));
  }

  /** Every document followed by a second copy of itself. */
  function DoubleEach(docs: seq<seq<Token>>): (dd: seq<seq<Token>>)
    ensures |dd| == |docs|
  {
    if docs == [] then []
    else DoubleEach(docs[..|docs| - 1]) + [docs[|docs| - 1] + docs[|docs| - 1]]
  }

  /** The k-th document of the doubled corpus is the k-th document twice. */
  lemma {:induction false} DoubleEachAt(docs: seq<seq<Token>>, k: nat)
    requires k < |docs|
    ensures DoubleEach(docs)[k] == docs[k] + docs[k]
  {
    if k < |docs| - 1 {
      DoubleEachAt(docs[..|docs| - 1], k);
    }
  }

  /** Doubling every document in place doubles every token's count and
      adds no group, nor changes the order of first appearance. */
  lemma {:induction false} FlattenOfDoubleEach(docs: seq<seq<Token>>)
    ensures multiset(Flatten(DoubleEach(docs))) == multiset(Flatten(docs)) + multiset(Flatten(docs))
    ensures Distinct(Flatten(DoubleEach(docs))) == Distinct(Flatten(docs))
  {
    if docs != [] {
      var init, d := docs[..|docs| - 1], docs[|docs| - 1];
      FlattenOfDoubleEach(init);
      var p2, p := Flatten(DoubleEach(init)), Flatten(init);
      FlattenOfDoubleEachStep(docs);
      assert Flatten(docs) == p + d;
      DistinctOfSameStart(p2, p, d);
      DistinctOfSeen(p2 + d, d);
    }
  }

  /** The flattening of a corpus doubled in place grows by the last
      document twice. */
  lemma FlattenOfDoubleEachStep(docs: seq<seq<Token>>)
    requires docs != []
    ensures var init, d := docs[..|docs| - 1], docs[|docs| - 1];
      Flatten(DoubleEach(docs)) == (Flatten(DoubleEach(init)) + d) + d
  {
    var init, d := docs[..|docs| - 1], docs[|docs| - 1];
    var dd := DoubleEach(docs);
    assert dd[..|dd| - 1] == DoubleEach(init);
    assert dd[|dd| - 1] == d + d;
  }

  /** Doubling every document in place leaves the ranking unchanged. */
  lemma RankingOfDoubleEach(docs: seq<seq<Token>>)
    ensures Ranking(Flatten(DoubleEach(docs))) == Ranking(Flatten(docs))
  {
    FlattenOfDoubleEach(docs);
    RankingOfDoubledCounts(Flatten(docs), Flatten(DoubleEach(docs)));
  }
}
