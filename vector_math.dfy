/** Vectors of bucket counts and of normalised frequencies, with the two
    private helpers of AnomalyScorer: Subtract and ManhattanDistance.
    The source works on double[]; here counts are nat and the normalised
    vectors are exact reals. */
module VectorMath {

  /** Math.Abs on a real. */
  function Abs(x: real): (r: real)
    ensures r >= 0.0 && (r == x || r == -x)
  {
    if x < 0.0 then -x else x
  }

  function Min(a: nat, b: nat): nat
  {
    if a <= b then a else b
  }

  /** Enumerable.Sum over a vector of counts. */
  function NatSum(v: seq<nat>): nat
  {
    if v == [] then 0 else v[0] + NatSum(v[1..])
  }

  /** No count exceeds the total. */
  lemma {:induction false} NatSumBoundsEntries(v: seq<nat>, i: nat)
    requires i < |v|
    ensures v[i] <= NatSum(v)
  {
    if i > 0 {
      NatSumBoundsEntries(v[1..], i - 1);
    }
  }

  /** Enumerable.Sum over a vector of reals. */
  function Sum(v: seq<real>): real
  {
    if v == [] then 0.0 else v[0] + Sum(v[1..])
  }

  ghost predicate NonNegative(v: seq<real>)
  {
    forall i :: 0 <= i < |v| ==> v[i] >= 0.0
  }

  /** Every slot of small is at most the same slot of large. */
  ghost predicate PointwiseAtMost(small: seq<nat>, large: seq<nat>)
  {
    |small| == |large| && forall b :: 0 <= b < |small| ==> small[b] <= large[b]
  }

  /** The total of non-negative entries is non-negative. */
  lemma {:induction false} SumNonNegative(v: seq<real>)
    requires NonNegative(v)
    ensures Sum(v) >= 0.0
  {
    if v != [] {
      assert NonNegative(v[1..]) by {
        forall i | 0 <= i < |v| - 1 ensures v[1..][i] >= 0.0 {
          assert v[1..][i] == v[i + 1];
        }
      }
      SumNonNegative(v[1..]);
    }
  }

  /** Every count doubled. */
  function Twice(v: seq<nat>): (w: seq<nat>)
    ensures |w| == |v|
    ensures forall i :: 0 <= i < |v| ==> w[i] == 2 * v[i]
    ensures NatSum(w) == 2 * NatSum(v)
  {
    if v == [] then [] else [2 * v[0]] + Twice(v[1..])
  }

  /** The conversion of an integer count vector to double[]. */
  function AsReal(v: seq<nat>): (r: seq<real>)
    ensures |r| == |v|
    ensures forall i :: 0 <= i < |v| ==> r[i] == v[i] as real
  {
    if v == [] then [] else [v[0] as real] + AsReal(v[1..])
  }

  /** Converting to reals keeps the total. */
  lemma {:induction false} AsRealSum(v: seq<nat>)
    ensures Sum(AsReal(v)) == NatSum(v) as real
  {
    if v != [] {
      AsRealSum(v[1..]);
      assert AsReal(v)[1..] == AsReal(v[1..]);
    }
  }

  /** Subtract: Zip with (l, r) => l - r, so the result is as long as the
      shorter argument and holds the pointwise differences. */
  function Subtract(left: seq<real>, right: seq<real>): (d: seq<real>)
    ensures |d| == Min(|left|, |right|)
    ensures forall i :: 0 <= i < |d| ==> d[i] == left[i] - right[i]
  {
    if left == [] || right == [] then []
    else [left[0] - right[0]] + Subtract(left[1..], right[1..])
  }

  /** On vectors of one length, the total of the difference is the
      difference of the totals. */
  lemma {:induction false} SubtractSum(left: seq<real>, right: seq<real>)
    requires |left| == |right|
    ensures Sum(Subtract(left, right)) == Sum(left) - Sum(right)
  {
    if left != [] {
      SubtractSum(left[1..], right[1..]);
    }
  }

  /** Subtracting and adding back the right operand restores the left one. */
  lemma SubtractUndone(left: seq<real>, right: seq<real>)
    requires |left| == |right|
    ensures var d := Subtract(left, right);
      forall i :: 0 <= i < |left| ==> d[i] + right[i] == left[i]
  {
  }

  /** Select(o => o / c): every entry divided by one denominator. */
  function DivideAll(v: seq<real>, c: real): (r: seq<real>)
    requires c != 0.0
    ensures |r| == |v|
    ensures forall i :: 0 <= i < |v| ==> r[i] == v[i] / c
  {
    if v == [] then [] else [v[0] / c] + DivideAll(v[1..], c)
  }

  /** Dividing every entry divides the total. */
  lemma {:induction false} DivideAllSum(v: seq<real>, c: real)
    requires c != 0.0
    ensures Sum(DivideAll(v, c)) == Sum(v) / c
  {
    if v != [] {
      DivideAllSum(v[1..], c);
      assert DivideAll(v, c)[1..] == DivideAll(v[1..], c);
      assert (v[0] + Sum(v[1..])) / c == v[0] / c + Sum(v[1..]) / c;
    }
  }

  /** Doubling every entry and the denominator divides alike. */
  lemma {:induction false} DivideAllOfDoubled(v: seq<real>, w: seq<real>, c: real, c2: real)
    requires c != 0.0 && c2 == 2.0 * c && |w| == |v|
    requires forall i :: 0 <= i < |v| ==> w[i] == 2.0 * v[i]
    ensures DivideAll(w, c2) == DivideAll(v, c)
  {
    if v != [] {
      DivideAllOfDoubled(v[1..], w[1..], c, c2);
      assert w[0] / c2 == v[0] / c;
    }
  }

  /** Dividing a vector by its own positive total gives entries that add
      up to one, and a distribution when the entries are non-negative. */
  lemma NormalisedIsDistribution(v: seq<real>, c: real)
    requires c > 0.0 && Sum(v) == c
    ensures Sum(DivideAll(v, c)) == 1.0
    ensures NonNegative(v) ==> NonNegative(DivideAll(v, c))
  {
    DivideAllSum(v, c);
    assert c / c == 1.0;
    if NonNegative(v) {
      var r := DivideAll(v, c);
      forall i | 0 <= i < |v| ensures r[i] >= 0.0 {
        assert r[i] == v[i] / c;
      }
    }
  }

  /** ManhattanDistance: Zip with (l, r) => Math.Abs(l - r), then Sum. */
  function ManhattanDistance(left: seq<real>, right: seq<real>): (dist: real)
    ensures dist >= 0.0
  {
    if left == [] || right == [] then 0.0
    else Abs(left[0] - right[0]) + ManhattanDistance(left[1..], right[1..])
  }

  lemma {:induction false} ManhattanSymmetric(left: seq<real>, right: seq<real>)
    ensures ManhattanDistance(left, right) == ManhattanDistance(right, left)
  {
    if left != [] && right != [] {
      ManhattanSymmetric(left[1..], right[1..]);
    }
  }

  /** On vectors of one length the distance vanishes exactly when the
      vectors are equal. */
  lemma {:induction false} ManhattanZeroIff(left: seq<real>, right: seq<real>)
    requires |left| == |right|
    ensures ManhattanDistance(left, right) == 0.0 <==> left == right
  {
    if left != [] {
      ManhattanZeroIff(left[1..], right[1..]);
      if left == right {
        assert left[1..] == right[1..];
      }
    }
  }

  /** The distance between two non-negative vectors is at most the sum of
      their totals. */
  lemma {:induction false} ManhattanAtMostTotals(left: seq<real>, right: seq<real>)
    requires |left| == |right|
    requires NonNegative(left) && NonNegative(right)
    ensures ManhattanDistance(left, right) <= Sum(left) + Sum(right)
  {
    if left != [] {
      assert NonNegative(left[1..]) && NonNegative(right[1..]) by {
        forall i | 0 <= i < |left| - 1 ensures left[1..][i] >= 0.0 && right[1..][i] >= 0.0 {
          assert left[1..][i] == left[i + 1] && right[1..][i] == right[i + 1];
        }
      }
      ManhattanAtMostTotals(left[1..], right[1..]);
      assert left[0] >= 0.0 && right[0] >= 0.0;
    }
  }

  /** Two distributions are at most 2 apart. */
  lemma DistributionsWithinTwo(left: seq<real>, right: seq<real>)
    requires |left| == |right| && Sum(left) == 1.0 && Sum(right) == 1.0
    requires NonNegative(left) && NonNegative(right)
    ensures ManhattanDistance(left, right) <= 2.0
  {
    ManhattanAtMostTotals(left, right);
  }

  /** Triangle inequality of the L1 distance. */
  lemma {:induction false} ManhattanTriangle(a: seq<real>, b: seq<real>, c: seq<real>)
    requires |a| == |b| == |c|
    ensures ManhattanDistance(a, c) <= ManhattanDistance(a, b) + ManhattanDistance(b, c)
  {
    if a != [] {
      ManhattanTriangle(a[1..], b[1..], c[1..]);
    }
  }
}
