/**
 * The list of selected symptoms: auto-detection from free text and the
 * checkbox toggle.
 */
module Selection {
  import opened Text
  import opened Seqs

  /** `words.some(word => symptom.toLowerCase().includes(word))`. */
  predicate MatchesSome(words: seq<string>, symptom: string) {
    exists w :: w in words && Contains(Lower(symptom), w)
  }

  /** `symptoms.filter(symptom => MatchesSome(words, symptom))`. */
  function Select(symptoms: seq<string>, words: seq<string>): (r: seq<string>)
    ensures IsSubsequence(r, symptoms)
    ensures forall s :: s in r <==> s in symptoms && MatchesSome(words, s)
    ensures NoDups(symptoms) ==> NoDups(r)
  {
    if symptoms == [] then []
    else
      var rest := Select(symptoms[1..], words);
      assert symptoms == [symptoms[0]] + symptoms[1..];
      assert NoDups(symptoms) ==> symptoms[0] !in symptoms[1..];
      if MatchesSome(words, symptoms[0]) then [symptoms[0]] + rest else rest
  }

  /**
   * The detection effect: the symptoms of `universe`, in universe order, in
   * which some whitespace-separated word of the lowered input occurs. Note
   * the direction: the word must occur in the symptom.
   */
  function Detect(universe: seq<string>, input: string): (r: seq<string>)
    ensures IsSubsequence(r, universe)
    ensures forall s :: s in r <==> s in universe && MatchesSome(Split(Lower(input)), s)
    ensures NoDups(universe) ==> NoDups(r)
  {
    Select(universe, Split(Lower(input)))
  }

  /** The empty word occurs in every symptom, so it selects all of them. */
  lemma {:induction false} SelectAllOnEmptyWord(symptoms: seq<string>, words: seq<string>)
    requires "" in words
    ensures Select(symptoms, words) == symptoms
  {
    if symptoms != [] {
      SelectAllOnEmptyWord(symptoms[1..], words);
      assert Contains(Lower(symptoms[0]), "");
      assert symptoms == [symptoms[0]] + symptoms[1..];
    }
  }

  /**
   * Empty input, or input that starts or ends with whitespace, splits into a
   * list holding the empty word and therefore selects every symptom.
   */
  lemma DetectAllOnBlankEdge(universe: seq<string>, input: string)
    requires input == [] || IsSpace(input[0]) || IsSpace(input[|input| - 1])
    ensures Detect(universe, input) == universe
  {
    var lowered := Lower(input);
    SplitHasEmptyWord(lowered);
    SelectAllOnEmptyWord(universe, Split(lowered));
  }

  /** Input without whitespace at either end yields no empty word, so each detection rests on a real word. */
  lemma DetectedByNonEmptyWord(universe: seq<string>, input: string, s: string)
    requires input != [] && !IsSpace(input[0]) && !IsSpace(input[|input| - 1])
    requires s in Detect(universe, input)
    ensures exists w :: w in Split(Lower(input)) && w != "" && Contains(Lower(s), w)
  {
    var lowered := Lower(input);
    var words := Split(lowered);
    SplitHasEmptyWord(lowered);
    assert !IsSpace(lowered[0]) && !IsSpace(lowered[|lowered| - 1]);
    assert MatchesSome(words, s);
    var w :| w in words && Contains(Lower(s), w);
    assert w != "";
  }

  /** `list.filter(id => id !== x)`. */
  function RemoveAll(list: seq<string>, x: string): (r: seq<string>)
    ensures x !in r
    ensures forall y :: y != x ==> (y in r <==> y in list)
    ensures IsSubsequence(r, list)
    ensures NoDups(list) ==> NoDups(r)
    ensures x !in list ==> r == list
  {
    if list == [] then []
    else
      var rest := RemoveAll(list[1..], x);
      assert list == [list[0]] + list[1..];
      assert NoDups(list) ==> list[0] !in list[1..];
      if list[0] == x then rest else [list[0]] + rest
  }

  /** The filter keeps every copy of every other element: only `x` loses its copies. */
  lemma {:induction false} RemoveAllCounts(list: seq<string>, x: string)
    ensures multiset(RemoveAll(list, x)) == multiset(list)[x := 0]
  {
    if list != [] {
      RemoveAllCounts(list[1..], x);
      assert list == [list[0]] + list[1..];
      assert multiset(list) == multiset{list[0]} + multiset(list[1..]);
      if list[0] != x {
        assert RemoveAll(list, x) == [list[0]] + RemoveAll(list[1..], x);
      }
    }
  }

  /**
   * `toggleSymptom`: a selected symptom is removed wherever it occurs, the
   * rest keeping their order; an unselected one is appended.
   */
  function Toggle(selected: seq<string>, symptom: string): (r: seq<string>)
    ensures symptom in selected ==>
              && symptom !in r
              && IsSubsequence(r, selected)
              && (forall y :: y != symptom ==> (y in r <==> y in selected))
              && multiset(r) == multiset(selected)[symptom := 0]
    ensures symptom !in selected ==> r == selected + [symptom]
  {
    if symptom in selected then
      RemoveAllCounts(selected, symptom);
      RemoveAll(selected, symptom)
    else
      selected + [symptom]
  }

  /** Removing `x` from a list that ends with its only occurrence drops that last element. */
  lemma {:induction false} RemoveAllLast(list: seq<string>, x: string)
    requires x !in list
    ensures RemoveAll(list + [x], x) == list
  {
    if list == [] {
      assert [] + [x] == [x];
    } else {
      RemoveAllLast(list[1..], x);
      assert (list + [x])[1..] == list[1..] + [x];
      assert list == [list[0]] + list[1..];
    }
  }

  /** Toggling an unselected symptom twice restores the selection. */
  lemma ToggleTwice(selected: seq<string>, symptom: string)
    requires symptom !in selected
    ensures Toggle(Toggle(selected, symptom), symptom) == selected
  {
    RemoveAllLast(selected, symptom);
  }

  /** Toggling keeps a duplicate-free selection duplicate-free. */
  lemma ToggleKeepsNoDups(selected: seq<string>, symptom: string)
    requires NoDups(selected)
    ensures NoDups(Toggle(selected, symptom))
  {
    if symptom !in selected {
      var r := selected + [symptom];
      forall i, j | 0 <= i < j < |r| ensures r[i] != r[j] {
        if j == |selected| {
          assert r[i] in selected;
        }
      }
    }
  }
}
