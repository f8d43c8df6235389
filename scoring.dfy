/**
 * Scoring and ranking: each condition's score for a free-text input, and the
 * stable descending sort of the scores (`scores.sort((a, b) =>
 * b.conditionScore - a.conditionScore)`).
 */
module Scoring {
  import opened Text
  import opened Seqs
  import opened Catalog
  import opened Vectors

  /** One entry of the ranking. */
  datatype ConditionScore = ConditionScore(condition: string, conditionScore: real, medications: seq<string>)

  /** The score of condition `c`: the mean of symptom similarity and wellness mean. */
  function ScoreOf(catalog: seq<Condition>, c: Condition, input: string, sqrt: real -> real): real {
    var universe := AllSymptoms(catalog);
    var similarity := Cosine(SymptomVector(universe, input), ConditionVector(universe, c), sqrt);
    (similarity + Mean(WellnessVector(input, c))) / 2.0
  }

  /** The scores of `cs`, in catalog order (the `map` over the table's keys). */
  function Scores(catalog: seq<Condition>, cs: seq<Condition>, input: string, sqrt: real -> real): (r: seq<ConditionScore>)
    ensures |r| == |cs|
    ensures forall i :: 0 <= i < |cs| ==>
              r[i] == ConditionScore(cs[i].name, ScoreOf(catalog, cs[i], input, sqrt), cs[i].medications)
  {
    if cs == [] then []
    else [ConditionScore(cs[0].name, ScoreOf(catalog, cs[0], input, sqrt), cs[0].medications)]
           + Scores(catalog, cs[1..], input, sqrt)
  }

  /** The scores name the conditions they score, in the same order. */
  lemma ScoresNames(catalog: seq<Condition>, cs: seq<Condition>, input: string, sqrt: real -> real)
    ensures Names(Scores(catalog, cs, input, sqrt)) == CatalogNames(cs)
  {
    var scores := Scores(catalog, cs, input, sqrt);
    assert forall i :: 0 <= i < |cs| ==> Names(scores)[i] == scores[i].condition == cs[i].name;
  }

  /** Scores never increase along `s`. */
  ghost predicate Sorted(s: seq<ConditionScore>) {
    forall i, j :: 0 <= i < j < |s| ==> s[i].conditionScore >= s[j].conditionScore
  }

  /** The entries of `s` whose score is `v`, in their order in `s`. */
  function WithScore(s: seq<ConditionScore>, v: real): seq<ConditionScore> {
    if s == [] then []
    else (if s[0].conditionScore == v then [s[0]] else []) + WithScore(s[1..], v)
  }

  /** The condition names of `s`, in order. */
  function Names(s: seq<ConditionScore>): seq<string> {
    seq(|s|, i requires 0 <= i < |s| => s[i].condition)
  }

  /** The condition names of a catalog, in order. */
  function CatalogNames(cs: seq<Condition>): seq<string> {
    seq(|cs|, i requires 0 <= i < |cs| => cs[i].name)
  }

  /** Places `x` after every entry of `sorted` scoring at least as much. */
  function InsertDesc(sorted: seq<ConditionScore>, x: ConditionScore): seq<ConditionScore> {
    if sorted == [] then [x]
    else if sorted[0].conditionScore >= x.conditionScore then [sorted[0]] + InsertDesc(sorted[1..], x)
    else [x] + sorted
  }

  /** The stable descending sort: insert each entry, left to right. */
  function SortDesc(s: seq<ConditionScore>): seq<ConditionScore> {
    if s == [] then [] else InsertDesc(SortDesc(s[..|s| - 1]), s[|s| - 1])
  }

  /** The ranking for an input: every condition's score, sorted descending and stably. */
  function Rank(catalog: seq<Condition>, input: string, sqrt: real -> real): seq<ConditionScore> {
    SortDesc(Scores(catalog, catalog, input, sqrt))
  }

  /** Inserting into a sorted sequence keeps it sorted. */
  lemma {:induction false} InsertDescSorted(sorted: seq<ConditionScore>, x: ConditionScore)
    requires Sorted(sorted)
    ensures Sorted(InsertDesc(sorted, x))
    ensures forall k :: 0 <= k < |InsertDesc(sorted, x)| ==>
              InsertDesc(sorted, x)[k] == x || InsertDesc(sorted, x)[k] in sorted
  {
    if sorted != [] && sorted[0].conditionScore >= x.conditionScore {
      InsertDescSorted(sorted[1..], x);
      var tail := InsertDesc(sorted[1..], x);
      forall k | 0 <= k < |tail| ensures tail[k].conditionScore <= sorted[0].conditionScore {
        if tail[k] != x {
          var m :| 0 <= m < |sorted[1..]| && sorted[1..][m] == tail[k];
          assert sorted[m + 1] == tail[k];
        }
      }
    }
  }

  /** Inserting adds exactly `x` to the multiset of entries. */
  lemma {:induction false} InsertDescPermutes(sorted: seq<ConditionScore>, x: ConditionScore)
    ensures multiset(InsertDesc(sorted, x)) == multiset(sorted) + multiset{x}
    ensures |InsertDesc(sorted, x)| == |sorted| + 1
  {
    if sorted != [] && sorted[0].conditionScore >= x.conditionScore {
      InsertDescPermutes(sorted[1..], x);
      assert sorted == [sorted[0]] + sorted[1..];
      assert InsertDesc(sorted, x) == [sorted[0]] + InsertDesc(sorted[1..], x);
    }
  }

  /** The names of `[e] + s` are `e`'s name followed by the names of `s`. */
  lemma NamesCons(e: ConditionScore, s: seq<ConditionScore>)
    ensures Names([e] + s) == [e.condition] + Names(s)
  {
  }

  /** Inserting adds exactly `x`'s name to the multiset of names. */
  lemma {:induction false} InsertDescNames(sorted: seq<ConditionScore>, x: ConditionScore)
    ensures multiset(Names(InsertDesc(sorted, x))) == multiset(Names(sorted)) + multiset{x.condition}
  {
    if sorted == [] {
      assert Names([x]) == [x.condition];
    } else if sorted[0].conditionScore >= x.conditionScore {
      InsertDescNames(sorted[1..], x);
      assert sorted == [sorted[0]] + sorted[1..];
      NamesCons(sorted[0], InsertDesc(sorted[1..], x));
      NamesCons(sorted[0], sorted[1..]);
    } else {
      NamesCons(x, sorted);
    }
  }

  /** Where `x` lands: after the first `j` entries, which are exactly those scoring at least `x`. */
  lemma {:induction false} InsertDescAt(sorted: seq<ConditionScore>, x: ConditionScore, j: nat)
    requires Sorted(sorted) && j <= |sorted|
    requires j > 0 ==> sorted[j - 1].conditionScore >= x.conditionScore
    requires forall k :: j <= k < |sorted| ==> sorted[k].conditionScore < x.conditionScore
    ensures InsertDesc(sorted, x) == sorted[..j] + [x] + sorted[j..]
  {
    if j > 0 {
      InsertDescAt(sorted[1..], x, j - 1);
      assert sorted[..j] == [sorted[0]] + sorted[1..][..j - 1];
    }
  }

  /** `WithScore` of `[e] + s`: `e` if it has score `v`, then the selection from `s`. */
  lemma WithScoreCons(e: ConditionScore, s: seq<ConditionScore>, v: real)
    ensures WithScore([e] + s, v) == (if e.conditionScore == v then [e] else []) + WithScore(s, v)
  {
    assert ([e] + s)[1..] == s;
  }

  /** `WithScore` distributes over concatenation. */
  lemma {:induction false} WithScoreConcat(a: seq<ConditionScore>, b: seq<ConditionScore>, v: real)
    ensures WithScore(a + b, v) == WithScore(a, v) + WithScore(b, v)
  {
    if a == [] {
      assert a + b == b;
    } else {
      var head := if a[0].conditionScore == v then [a[0]] else [];
      WithScoreConcat(a[1..], b, v);
      assert a == [a[0]] + a[1..];
      assert a + b == [a[0]] + (a[1..] + b);
      WithScoreCons(a[0], a[1..] + b, v);
      WithScoreCons(a[0], a[1..], v);
      assert head + (WithScore(a[1..], v) + WithScore(b, v))
          == (head + WithScore(a[1..], v)) + WithScore(b, v);
    }
  }

  /** Inserting `x` leaves the entries of every other score in their order and puts `x` after those of its own. */
  lemma {:induction false} InsertDescStable(sorted: seq<ConditionScore>, x: ConditionScore, v: real)
    requires Sorted(sorted)
    ensures WithScore(InsertDesc(sorted, x), v)
              == WithScore(sorted, v) + (if x.conditionScore == v then [x] else [])
  {
    var mine := if x.conditionScore == v then [x] else [];
    if sorted == [] {
      assert WithScore([x], v) == mine by {
        WithScoreCons(x, [], v);
        assert [x] + [] == [x];
      }
    } else if sorted[0].conditionScore >= x.conditionScore {
      var first, rest := sorted[0], sorted[1..];
      var head := if first.conditionScore == v then [first] else [];
      assert Sorted(rest);
      InsertDescStable(rest, x, v);
      assert InsertDesc(sorted, x) == [first] + InsertDesc(rest, x);
      WithScoreCons(first, InsertDesc(rest, x), v);
      assert sorted == [first] + rest;
      WithScoreCons(first, rest, v);
      assert head + (WithScore(rest, v) + mine) == (head + WithScore(rest, v)) + mine;
    } else {
      assert InsertDesc(sorted, x) == [x] + sorted;
      WithScoreCons(x, sorted, v);
      if x.conditionScore == v {
        NoneWithScore(sorted, v);
      }
    }
  }

  /** No entry of `s` has score `v`, so selecting them gives nothing. */
  lemma {:induction false} NoneWithScore(s: seq<ConditionScore>, v: real)
    requires forall k :: 0 <= k < |s| ==> s[k].conditionScore < v
    ensures WithScore(s, v) == []
  {
    if s != [] {
      NoneWithScore(s[1..], v);
    }
  }

  /** `SortDesc` of a non-empty sequence inserts its last entry into the sorted rest. */
  lemma SortDescLast(s: seq<ConditionScore>)
    requires s != []
    ensures SortDesc(s) == InsertDesc(SortDesc(s[..|s| - 1]), s[|s| - 1])
  {
  }

  /** `SortDesc` yields a sorted sequence. */
  lemma {:induction false} SortDescSorted(s: seq<ConditionScore>)
    ensures Sorted(SortDesc(s))
  {
    if s != [] {
      SortDescLast(s);
      SortDescSorted(s[..|s| - 1]);
      InsertDescSorted(SortDesc(s[..|s| - 1]), s[|s| - 1]);
    }
  }

  /** `SortDesc` permutes its input, and so also the names in it. */
  lemma {:induction false} SortDescPermutes(s: seq<ConditionScore>)
    ensures multiset(SortDesc(s)) == multiset(s)
    ensures |SortDesc(s)| == |s|
    ensures multiset(Names(SortDesc(s))) == multiset(Names(s))
  {
    if s != [] {
      var init, last := s[..|s| - 1], s[|s| - 1];
      SortDescLast(s);
      assert s == init + [last];
      SortDescPermutes(init);
      InsertDescPermutes(SortDesc(init), last);
      InsertDescNames(SortDesc(init), last);
      assert Names(s) == Names(init) + [last.condition];
    }
  }

  /** `SortDesc` is stable: the entries of any one score keep their input order. */
  lemma {:induction false} SortDescStable(s: seq<ConditionScore>, v: real)
    ensures WithScore(SortDesc(s), v) == WithScore(s, v)
  {
    if s != [] {
      var init, last := s[..|s| - 1], s[|s| - 1];
      SortDescLast(s);
      assert s == init + [last];
      SortDescStable(init, v);
      SortDescSorted(init);
      InsertDescStable(SortDesc(init), last, v);
      WithScoreConcat(init, [last], v);
    }
  }

  /**
   * `SortDesc` is a sorted permutation of its input, and stable: the entries
   * of any one score keep their input order.
   */
  lemma SortDescSpec(s: seq<ConditionScore>)
    ensures Sorted(SortDesc(s))
    ensures multiset(SortDesc(s)) == multiset(s)
    ensures multiset(Names(SortDesc(s))) == multiset(Names(s))
    ensures forall v :: WithScore(SortDesc(s), v) == WithScore(s, v)
  {
    SortDescSorted(s);
    SortDescPermutes(s);
    forall v ensures WithScore(SortDesc(s), v) == WithScore(s, v) {
      SortDescStable(s, v);
    }
  }

  /** Sorting a sequence that is already sorted changes nothing. */
  lemma {:induction false} SortDescOfSorted(s: seq<ConditionScore>)
    requires Sorted(s)
    ensures SortDesc(s) == s
  {
    if s != [] {
      var init := s[..|s| - 1];
      SortDescOfSorted(init);
      InsertDescAt(init, s[|s| - 1], |init|);
      assert s == init + [s[|s| - 1]];
    }
  }

  /**
   * The ranking holds one entry per catalog condition, sorted by score with
   * ties in catalog order, and its first entry has the highest score.
   */
  lemma RankSpec(catalog: seq<Condition>, input: string, sqrt: real -> real)
    ensures |Rank(catalog, input, sqrt)| == |catalog|
    ensures multiset(Names(Rank(catalog, input, sqrt))) == multiset(CatalogNames(catalog))
    ensures multiset(Rank(catalog, input, sqrt)) == multiset(Scores(catalog, catalog, input, sqrt))
    ensures Sorted(Rank(catalog, input, sqrt))
    ensures forall v :: WithScore(Rank(catalog, input, sqrt), v) == WithScore(Scores(catalog, catalog, input, sqrt), v)
    ensures forall k :: 0 <= k < |catalog| ==>
              Rank(catalog, input, sqrt)[k].conditionScore <= Rank(catalog, input, sqrt)[0].conditionScore
  {
    var scores := Scores(catalog, catalog, input, sqrt);
    var ranked := Rank(catalog, input, sqrt);
    assert ranked == SortDesc(scores);
    SortDescPermutes(scores);
    ScoresNames(catalog, catalog, input, sqrt);
    SortDescSorted(scores);
    forall v ensures WithScore(ranked, v) == WithScore(scores, v) {
      SortDescStable(scores, v);
    }
  }

  /**
   * With a true square root, every score lies in -1/2..1: similarity of two
   * 0/1 vectors is in 0..1 and the wellness mean is in -1..1.
   */
  lemma ScoreWithin(catalog: seq<Condition>, c: Condition, input: string, sqrt: real -> real)
    requires IsSqrt(sqrt)
    ensures -0.5 <= ScoreOf(catalog, c, input, sqrt) <= 1.0
  {
    var universe := AllSymptoms(catalog);
    CosineBinaryWithin(SymptomVector(universe, input), ConditionVector(universe, c), sqrt);
    MeanWithin(WellnessVector(input, c));
  }

  /** The lowered input includes none of the symptoms and none of the condition's words. */
  ghost predicate MatchesNothing(catalog: seq<Condition>, c: Condition, input: string) {
    && (forall s :: s in AllSymptoms(catalog) ==> !Contains(Lower(input), Lower(s)))
    && (forall w :: w in AllWords(c) ==> !Contains(Lower(input), Lower(w)))
  }

  /** An input that matches no keyword scores 0. */
  lemma NoMatchScoresZero(catalog: seq<Condition>, c: Condition, input: string, sqrt: real -> real)
    requires IsSqrt(sqrt) && MatchesNothing(catalog, c, input)
    ensures ScoreOf(catalog, c, input, sqrt) == 0.0
  {
    var universe := AllSymptoms(catalog);
    var u := SymptomVector(universe, input);
    var w := WellnessVector(input, c);
    assert AllZero(u) by {
      forall i | 0 <= i < |u| ensures u[i] == 0 {
        assert universe[i] in universe;
      }
    }
    assert AllZero(w) by {
      forall i | 0 <= i < |w| ensures w[i] == 0 {
        assert AllWords(c)[i] in AllWords(c);
      }
    }
    CosineZeroGuard(u, ConditionVector(universe, c), sqrt);
    MeanAllZero(w);
  }

  /** All entries of `s` have score 0. */
  ghost predicate AllScoresZero(s: seq<ConditionScore>) {
    forall k :: 0 <= k < |s| ==> s[k].conditionScore == 0.0
  }

  /**
   * When the input matches no keyword of any condition, every score is 0 and
   * the ranking is the catalog order itself, so the first condition is on top.
   */
  lemma NoMatchRanksInCatalogOrder(catalog: seq<Condition>, input: string, sqrt: real -> real)
    requires IsSqrt(sqrt)
    requires forall k :: 0 <= k < |catalog| ==> MatchesNothing(catalog, catalog[k], input)
    ensures AllScoresZero(Rank(catalog, input, sqrt))
    ensures Names(Rank(catalog, input, sqrt)) == CatalogNames(catalog)
  {
    var scores := Scores(catalog, catalog, input, sqrt);
    forall k | 0 <= k < |catalog| ensures scores[k].conditionScore == 0.0 {
      NoMatchScoresZero(catalog, catalog[k], input, sqrt);
    }
    SortDescOfSorted(scores);
  }

  /**
   * With non-empty keywords, the empty text (the text area's initial value)
   * matches nothing, so every score is 0 and the first condition is on top.
   */
  lemma EmptyInputRanksInCatalogOrder(catalog: seq<Condition>, sqrt: real -> real)
    requires IsSqrt(sqrt) && KeywordsNonEmpty(catalog)
    ensures AllScoresZero(Rank(catalog, "", sqrt))
    ensures Names(Rank(catalog, "", sqrt)) == CatalogNames(catalog)
    ensures catalog != [] ==> Rank(catalog, "", sqrt)[0].condition == catalog[0].name
  {
    AllSymptomsSpec(catalog);
    assert Lower("") == "";
    forall k | 0 <= k < |catalog| ensures MatchesNothing(catalog, catalog[k], "") {
      forall s | s in AllSymptoms(catalog) ensures !Contains(Lower(""), Lower(s)) {
        var j :| 0 <= j < |catalog| && s in catalog[j].symptoms;
        assert |Lower(s)| == |s| > 0;
      }
      forall w | w in AllWords(catalog[k]) ensures !Contains(Lower(""), Lower(w)) {
        assert |Lower(w)| == |w| > 0;
      }
    }
    NoMatchRanksInCatalogOrder(catalog, "", sqrt);
    var ranked := Rank(catalog, "", sqrt);
    assert |Names(ranked)| == |ranked|;
    assert catalog != [] ==> Names(ranked)[0] == ranked[0].condition;
  }

  /**
   * The scoring effect's computation: maps every condition to its score into
   * a fresh array and sorts that array in place; the result is the ranking.
   */
  method RankConditions(catalog: seq<Condition>, input: string, sqrt: real -> real)
    returns (ranked: seq<ConditionScore>)
    ensures ranked == Rank(catalog, input, sqrt)
  {
    var scores := new ConditionScore[|catalog|](i requires 0 <= i < |catalog| =>
      ConditionScore(catalog[i].name, ScoreOf(catalog, catalog[i], input, sqrt), catalog[i].medications));
    assert scores[..] == Scores(catalog, catalog, input, sqrt);
    SortByScore(scores);
    ranked := scores[..];
  }

  /**
   * `scores.sort(...)` on the array of scores: an insertion sort that moves
   * an entry left only past entries scoring strictly less, so it is stable.
   */
  method SortByScore(a: array<ConditionScore>)
    modifies a
    ensures a[..] == SortDesc(old(a[..]))
  {
    ghost var input := a[..];
    var i := 0;
    while i < a.Length
      invariant 0 <= i <= a.Length
      invariant a[..i] == SortDesc(input[..i])
      invariant a[i..] == input[i..]
    {
      SortDescSorted(input[..i]);
      ghost var rest := a[i..];
      InsertNext(a, i);
      assert a[i + 1..] == rest[1..] == input[i + 1..];
      assert input[..i + 1] == input[..i] + [input[i]];
      SortDescLast(input[..i + 1]);
      i := i + 1;
    }
    assert input[..a.Length] == input;
  }

  /** One step of the insertion sort: inserts `a[i]` into the sorted prefix `a[..i]`. */
  method InsertNext(a: array<ConditionScore>, i: nat)
    requires i < a.Length && Sorted(a[..i])
    modifies a
    ensures a[..i + 1] == InsertDesc(old(a[..i]), old(a[i]))
    ensures a[i + 1..] == old(a[i + 1..])
  {
    ghost var sorted := a[..i];
    var x := a[i];
    var j := i;
    while j > 0 && a[j - 1].conditionScore < x.conditionScore
      invariant 0 <= j <= i
      invariant forall k :: 0 <= k < j ==> a[k] == sorted[k]
      invariant forall k :: j < k <= i ==> a[k] == sorted[k - 1]
      invariant forall k :: i < k < a.Length ==> a[k] == old(a[k])
      invariant forall k :: j <= k < i ==> sorted[k].conditionScore < x.conditionScore
    {
      a[j] := a[j - 1];
      j := j - 1;
    }
    a[j] := x;
    ShiftedIsInsert(a[..], sorted, x, j);
  }

  /** The array contents after the shifting loop of `InsertNext` are the insertion of `x`. */
  lemma ShiftedIsInsert(s: seq<ConditionScore>, sorted: seq<ConditionScore>, x: ConditionScore, j: nat)
    requires Sorted(sorted) && j <= |sorted| < |s|
    requires forall k :: 0 <= k < j ==> s[k] == sorted[k]
    requires s[j] == x
    requires forall k :: j < k <= |sorted| ==> s[k] == sorted[k - 1]
    requires j > 0 ==> sorted[j - 1].conditionScore >= x.conditionScore
    requires forall k :: j <= k < |sorted| ==> sorted[k].conditionScore < x.conditionScore
    ensures s[..|sorted| + 1] == InsertDesc(sorted, x)
  {
    InsertDescAt(sorted, x, j);
    var inserted := sorted[..j] + [x] + sorted[j..];
    forall k | 0 <= k <= |sorted| ensures s[k] == inserted[k] {
      if k < j {
        assert inserted[k] == sorted[k];
      } else if j < k {
        assert inserted[k] == sorted[k - 1];
      }
    }
  }
}
