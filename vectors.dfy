/**
 * The vectors the checker derives from free text, and cosine similarity
 * between them. `Math.sqrt` is a parameter `sqrt`; the lemmas that need its
 * meaning require `IsSqrt(sqrt)`.
 */
module Vectors {
  import opened Text
  import opened Catalog

  /** `sqrt` returns the non-negative square root of every non-negative real. */
  ghost predicate IsSqrt(sqrt: real -> real) {
    forall x: real :: 0.0 <= x ==> 0.0 <= sqrt(x) && sqrt(x) * sqrt(x) == x
  }

  /** Every entry of `v` lies in `lo..hi`. */
  ghost predicate Within(v: seq<int>, lo: int, hi: int) {
    forall i :: 0 <= i < |v| ==> lo <= v[i] <= hi
  }

  /** Every entry of `v` is zero. */
  ghost predicate AllZero(v: seq<int>) {
    forall i :: 0 <= i < |v| ==> v[i] == 0
  }

  /** `createSymptomVector`: 1 where the lowered input includes the lowered symptom, else 0. */
  function SymptomVector(universe: seq<string>, input: string): (v: seq<int>)
    ensures |v| == |universe|
    ensures Within(v, 0, 1)
    ensures forall i :: 0 <= i < |v| ==> (v[i] == 1 <==> Contains(Lower(input), Lower(universe[i])))
  {
    if universe == [] then []
    else
      [if Contains(Lower(input), Lower(universe[0])) then 1 else 0]
        + SymptomVector(universe[1..], input)
  }

  /** The condition's own 0/1 vector over the universe: 1 where it lists the symptom. */
  function ConditionVector(universe: seq<string>, c: Condition): (v: seq<int>)
    ensures |v| == |universe|
    ensures Within(v, 0, 1)
    ensures forall i :: 0 <= i < |v| ==> (v[i] == 1 <==> universe[i] in c.symptoms)
  {
    if universe == [] then []
    else [if universe[0] in c.symptoms then 1 else 0] + ConditionVector(universe[1..], c)
  }

  /**
   * The entries of the wellness vector for `words[k..]`, where `words` is the
   * wellness words followed by the unwellness words and `split` is the number
   * of wellness words.
   */
  function WellnessFrom(input: string, words: seq<string>, split: nat, k: nat): (v: seq<int>)
    requires k <= |words|
    ensures |v| == |words| - k
    ensures forall i :: 0 <= i < |v| ==>
              && (v[i] != 0 <==> Contains(Lower(input), Lower(words[k + i])))
              && (v[i] != 0 ==> v[i] == (if k + i < split then 1 else -1))
    decreases |words| - k
  {
    if k == |words| then []
    else
      [if Contains(Lower(input), Lower(words[k])) then (if k < split then 1 else -1) else 0]
        + WellnessFrom(input, words, split, k + 1)
  }

  /** The wellness words of `c` followed by its unwellness words. */
  function AllWords(c: Condition): seq<string> {
    c.wellnessWords + c.unwellnessWords
  }

  /**
   * `createWellnessVector`: over the wellness then unwellness words, a word
   * the lowered input includes counts +1 on the wellness side and -1 on the
   * unwellness side; others count 0.
   */
  function WellnessVector(input: string, c: Condition): (v: seq<int>)
    ensures |v| == |c.wellnessWords| + |c.unwellnessWords|
    ensures Within(v, -1, 1)
    ensures forall i :: 0 <= i < |c.wellnessWords| ==> v[i] != -1
    ensures forall i :: |c.wellnessWords| <= i < |v| ==> v[i] != 1
    ensures forall i :: 0 <= i < |v| ==> (v[i] != 0 <==> Contains(Lower(input), Lower(AllWords(c)[i])))
  {
    WellnessFrom(input, AllWords(c), |c.wellnessWords|, 0)
  }

  /** The sum of the entries (`reduce((a, b) => a + b, 0)`). */
  function Sum(v: seq<int>): int {
    if v == [] then 0 else v[0] + Sum(v[1..])
  }

  /** The dot product of two vectors of equal length. */
  function Dot(a: seq<int>, b: seq<int>): int
    requires |a| == |b|
  {
    if a == [] then 0 else a[0] * b[0] + Dot(a[1..], b[1..])
  }

  /** The squared magnitude: the sum of the squared entries. */
  function SumSq(v: seq<int>): int {
    if v == [] then 0 else v[0] * v[0] + SumSq(v[1..])
  }

  /** The mean of a vector, 0 for the empty vector. */
  function Mean(v: seq<int>): real {
    if |v| > 0 then Sum(v) as real / |v| as real else 0.0
  }

  /**
   * `cosineSimilarity`: the dot product over the product of the magnitudes,
   * or 0 when either magnitude is 0.
   */
  function Cosine(a: seq<int>, b: seq<int>, sqrt: real -> real): real
    requires |a| == |b|
  {
    GuardedRatio(Dot(a, b) as real, sqrt(SumSq(a) as real), sqrt(SumSq(b) as real))
  }

  /** `dot / (magA * magB)`, or 0 when either magnitude is 0. */
  function GuardedRatio(dot: real, magA: real, magB: real): real {
    if magA != 0.0 && magB != 0.0 then dot / (magA * magB) else 0.0
  }

  /** The squared magnitude is 0 exactly for the zero vector, and never negative. */
  lemma {:induction false} SumSqZero(v: seq<int>)
    ensures SumSq(v) >= 0
    ensures SumSq(v) == 0 <==> AllZero(v)
  {
    if v != [] {
      SumSqZero(v[1..]);
      assert AllZero(v) <==> v[0] == 0 && AllZero(v[1..]) by {
        assert forall i :: 1 <= i < |v| ==> v[i] == v[1..][i - 1];
      }
    }
  }

  /** A vector with entries in -1..1 sums to a value between -|v| and |v|. */
  lemma {:induction false} SumWithin(v: seq<int>)
    requires Within(v, -1, 1)
    ensures -|v| <= Sum(v) <= |v|
  {
    if v != [] {
      assert Within(v[1..], -1, 1) by {
        assert forall i :: 0 <= i < |v| - 1 ==> v[1..][i] == v[i + 1];
      }
      SumWithin(v[1..]);
    }
  }

  /** The zero vector sums to 0. */
  lemma {:induction false} SumAllZero(v: seq<int>)
    requires AllZero(v)
    ensures Sum(v) == 0
  {
    if v != [] {
      assert AllZero(v[1..]) by {
        assert forall i :: 0 <= i < |v| - 1 ==> v[1..][i] == v[i + 1];
      }
      SumAllZero(v[1..]);
    }
  }

  /** The mean of a vector with entries in -1..1 lies in -1..1. */
  lemma MeanWithin(v: seq<int>)
    requires Within(v, -1, 1)
    ensures -1.0 <= Mean(v) <= 1.0
  {
    if |v| > 0 {
      SumWithin(v);
      var n := |v| as real;
      var s := Sum(v) as real;
      assert -n <= s <= n;
      assert s / n <= 1.0 by {
        assert s / n * n == s;
      }
      assert -1.0 <= s / n by {
        assert s / n * n == s;
      }
    }
  }

  /** The mean of the zero vector, empty or not, is 0. */
  lemma MeanAllZero(v: seq<int>)
    requires AllZero(v)
    ensures Mean(v) == 0.0
  {
    SumAllZero(v);
  }

  /** For 0/1 vectors the dot product lies between 0 and either squared magnitude. */
  lemma {:induction false} BinaryDotBounds(a: seq<int>, b: seq<int>)
    requires |a| == |b| && Within(a, 0, 1) && Within(b, 0, 1)
    ensures 0 <= Dot(a, b) <= SumSq(a)
    ensures Dot(a, b) <= SumSq(b)
  {
    if a != [] {
      assert Within(a[1..], 0, 1) && Within(b[1..], 0, 1) by {
        assert forall i :: 0 <= i < |a| - 1 ==> a[1..][i] == a[i + 1] && b[1..][i] == b[i + 1];
      }
      BinaryDotBounds(a[1..], b[1..]);
    }
  }

  /** A true square root is 0 only at 0. */
  lemma SqrtZero(sqrt: real -> real, n: int)
    requires IsSqrt(sqrt) && n >= 0
    ensures sqrt(n as real) == 0.0 <==> n == 0
  {
    var r := sqrt(n as real);
    SquareZero(r);
    assert 0.0 <= r && r * r == n as real;
  }

  /** A non-negative real whose square is 0 is 0. */
  lemma SquareZero(r: real)
    requires 0.0 <= r
    ensures r * r == 0.0 ==> r == 0.0
  {
    assert r != 0.0 ==> r == (r * r) / r;
  }

  /** Cosine similarity is 0 as soon as either vector is the zero vector. */
  lemma CosineZeroGuard(a: seq<int>, b: seq<int>, sqrt: real -> real)
    requires IsSqrt(sqrt) && |a| == |b|
    requires AllZero(a) || AllZero(b)
    ensures Cosine(a, b, sqrt) == 0.0
  {
    SumSqZero(a);
    SumSqZero(b);
    SqrtZero(sqrt, SumSq(a));
    SqrtZero(sqrt, SumSq(b));
  }

  /**
   * The real-number core of the bound: if `d` is at most both `x * x` and
   * `y * y` for positive `x`, `y`, then `d / (x * y)` lies in 0..1.
   */
  lemma RatioWithin(d: real, x: real, y: real)
    requires 0.0 <= d && 0.0 < x && 0.0 < y
    requires d <= x * x && d <= y * y
    ensures 0.0 <= d / (x * y) <= 1.0
  {
    var p := x * y;
    assert 0.0 < p;
    assert d * d <= (x * x) * (y * y) by {
      assert d * d <= (x * x) * d;
      assert (x * x) * d <= (x * x) * (y * y);
    }
    assert (x * x) * (y * y) == p * p;
    assert (d - p) * (d + p) == d * d - p * p;
    assert d <= p;
    assert d / p * p == d;
  }

  /** Cosine similarity between two 0/1 vectors lies in 0..1. */
  lemma CosineBinaryWithin(a: seq<int>, b: seq<int>, sqrt: real -> real)
    requires IsSqrt(sqrt) && |a| == |b| && Within(a, 0, 1) && Within(b, 0, 1)
    ensures 0.0 <= Cosine(a, b, sqrt) <= 1.0
  {
    BinaryDotBounds(a, b);
    Magnitude(a, sqrt);
    Magnitude(b, sqrt);
    GuardedRatioWithin(Dot(a, b) as real, sqrt(SumSq(a) as real), sqrt(SumSq(b) as real),
                       SumSq(a) as real, SumSq(b) as real);
  }

  /** With a true square root, the magnitude of `v` is non-negative and squares to `SumSq(v)`. */
  lemma Magnitude(v: seq<int>, sqrt: real -> real)
    requires IsSqrt(sqrt)
    ensures 0.0 <= sqrt(SumSq(v) as real)
    ensures sqrt(SumSq(v) as real) * sqrt(SumSq(v) as real) == SumSq(v) as real
  {
    SumSqZero(v);
    SqrtOf(sqrt, SumSq(v) as real);
  }

  /** `RatioWithin`, behind the zero guard of `Cosine`. */
  lemma GuardedRatioWithin(d: real, x: real, y: real, xx: real, yy: real)
    requires 0.0 <= d && 0.0 <= x && 0.0 <= y
    requires x * x == xx && y * y == yy && d <= xx && d <= yy
    ensures 0.0 <= GuardedRatio(d, x, y) <= 1.0
  {
    if x != 0.0 && y != 0.0 {
      RatioWithin(d, x, y);
    }
  }

  /** What `IsSqrt` says about one argument. */
  lemma SqrtOf(sqrt: real -> real, x: real)
    requires IsSqrt(sqrt) && 0.0 <= x
    ensures 0.0 <= sqrt(x) && sqrt(x) * sqrt(x) == x
  {
  }

  /** A non-zero vector has cosine similarity 1 with itself. */
  lemma CosineSelf(a: seq<int>, sqrt: real -> real)
    requires IsSqrt(sqrt) && !AllZero(a)
    ensures Cosine(a, a, sqrt) == 1.0
  {
    SumSqZero(a);
    SqrtZero(sqrt, SumSq(a));
    DotSelf(a);
    var m := sqrt(SumSq(a) as real);
    assert m * m == SumSq(a) as real;
    assert m != 0.0;
    assert Dot(a, a) as real / (m * m) == 1.0;
  }

  /** The dot product of a vector with itself is its squared magnitude. */
  lemma {:induction false} DotSelf(a: seq<int>)
    ensures Dot(a, a) == SumSq(a)
  {
    if a != [] {
      DotSelf(a[1..]);
    }
  }
}
