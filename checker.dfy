/**
 * The state of the symptom checker form and the handlers and effects that
 * update it: the checkbox toggle, the scoring effect, the detection effect
 * and the "Get Recommendations" button.
 */
module Checker {
  import opened Text
  import opened Seqs
  import opened Catalog
  import opened Scoring
  import opened Selection
  import opened Advice

  class SymptomChecker {
    /** The condition table the checker scores against. */
    const catalog: seq<Condition>
    /** `allSymptoms`, derived once from the table. */
    const universe: seq<string>

    var freeTextInput: string
    var selectedSymptoms: seq<string>
    var conditionScores: seq<ConditionScore>
    var topCondition: string
    var wellnessScore: real
    var recommendation: string
    var showRecommendation: bool

    /**
     * The selection holds distinct symptoms of the universe; the ranking is
     * sorted, and once there is one its first entry is the top condition
     * with its score.
     */
    ghost predicate Valid()
      reads this`selectedSymptoms, this`conditionScores, this`topCondition, this`wellnessScore
    {
      && universe == AllSymptoms(catalog)
      && NoDups(selectedSymptoms)
      && (forall s :: s in selectedSymptoms ==> s in universe)
      && Sorted(conditionScores)
      && (conditionScores != [] ==>
            && topCondition == conditionScores[0].condition
            && wellnessScore == conditionScores[0].conditionScore)
    }

    /** The initial state of every `useState`. */
    constructor (catalog: seq<Condition>)
      ensures Valid()
      ensures this.catalog == catalog
      ensures freeTextInput == "" && selectedSymptoms == [] && conditionScores == []
      ensures topCondition == "" && wellnessScore == 0.0
      ensures recommendation == "" && !showRecommendation
    {
      this.catalog := catalog;
      universe := AllSymptoms(catalog);
      freeTextInput := "";
      selectedSymptoms := [];
      conditionScores := [];
      topCondition := "";
      wellnessScore := 0.0;
      recommendation := "";
      showRecommendation := false;
    }

    /** `toggleSymptom`, called by the checkbox of a symptom of the universe. */
    method ToggleSymptom(symptomId: string)
      requires Valid() && symptomId in universe
      modifies this`selectedSymptoms
      ensures Valid()
      ensures selectedSymptoms == Toggle(old(selectedSymptoms), symptomId)
    {
      ToggleKeepsNoDups(selectedSymptoms, symptomId);
      selectedSymptoms := Toggle(selectedSymptoms, symptomId);
    }

    /**
     * The scoring effect: scores every condition, sorts the scores in place
     * and publishes them; a non-empty ranking also sets the top condition and
     * its score.
     */
    method RunScoring(sqrt: real -> real)
      requires Valid()
      modifies this`conditionScores, this`topCondition, this`wellnessScore
      ensures Valid()
      ensures conditionScores == Rank(catalog, freeTextInput, sqrt)
      ensures |conditionScores| == |catalog|
      ensures conditionScores == [] ==>
                topCondition == old(topCondition) && wellnessScore == old(wellnessScore)
    {
      var ranked := RankConditions(catalog, freeTextInput, sqrt);
      assert Sorted(ranked) && |ranked| == |catalog| by {
        RankSpec(catalog, freeTextInput, sqrt);
      }
      conditionScores := ranked;
      if ranked != [] {
        topCondition := ranked[0].condition;
        wellnessScore := ranked[0].conditionScore;
      }
    }

    /** The detection effect: the selection becomes the symptoms detected in the text. */
    method RunDetection()
      requires Valid()
      modifies this`selectedSymptoms
      ensures Valid()
      ensures selectedSymptoms == Detect(universe, freeTextInput)
    {
      AllSymptomsSpec(catalog);
      selectedSymptoms := Detect(universe, freeTextInput);
    }

    /** Typing in the text area: the new text, then both effects that depend on it. */
    method SetFreeTextInput(text: string, sqrt: real -> real)
      requires Valid()
      modifies this`freeTextInput, this`conditionScores, this`topCondition, this`wellnessScore,
               this`selectedSymptoms
      ensures Valid()
      ensures freeTextInput == text
      ensures conditionScores == Rank(catalog, text, sqrt)
      ensures selectedSymptoms == Detect(universe, text)
      ensures text == [] || IsSpace(text[0]) || IsSpace(text[|text| - 1]) ==> selectedSymptoms == universe
      ensures conditionScores == [] ==>
                topCondition == old(topCondition) && wellnessScore == old(wellnessScore)
    {
      freeTextInput := text;
      RunScoring(sqrt);
      RunDetection();
      if text == [] || IsSpace(text[0]) || IsSpace(text[|text| - 1]) {
        DetectAllOnBlankEdge(universe, text);
      }
    }

    /** `handleGetRecommendations`: shows advice only once there is a top condition. */
    method GetRecommendations()
      requires Valid()
      modifies this`recommendation, this`showRecommendation
      ensures Valid()
      ensures topCondition != "" ==>
                recommendation == Recommendation(topCondition, wellnessScore) && showRecommendation
      ensures topCondition == "" ==>
                recommendation == old(recommendation) && showRecommendation == old(showRecommendation)
    {
      if topCondition != "" {
        recommendation := Recommendation(topCondition, wellnessScore);
        showRecommendation := true;
      }
    }
  }
}
