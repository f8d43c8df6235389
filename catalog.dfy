/**
 * The condition table of the symptom checker and the symptom universe
 * derived from it.
 */
module Catalog {
  import opened Seqs

  /** One row of the condition table, keyed by `name`. */
  datatype Condition = Condition(
    name: string,
    symptoms: seq<string>,
    medications: seq<string>,
    wellnessWords: seq<string>,
    unwellnessWords: seq<string>,
    color: string)

  /** The six conditions, in the order the table lists them. */
  const Conditions: seq<Condition> := [
    Condition(
      "Flu",
      ["Sore throat", "Dry cough", "Tiredness", "Unwell", "Body aches and pains", "Headache", "Fever", "Blocked nose"],
      ["Paracetamol", "Ibuprofen Caplets", "Beechams Cold and Flu Powder"],
      ["resting", "hydrated", "recovering", "improving"],
      ["exhausted", "feverish", "achy", "miserable"],
      "bg-red-500"),
    Condition(
      "Cold",
      ["Sore throat", "Wet cough", "Blanching red rash", "Body aches and pains", "Headache", "Fever", "Blocked nose"],
      ["Paracetamol", "Ibuprofen Caplets", "Beechams Cold and Flu Powder"],
      ["mild", "manageable", "improving", "hydrated"],
      ["congested", "sneezing", "runny nose", "sore"],
      "bg-blue-500"),
    Condition(
      "Strep Throat",
      ["Sore throat", "Dry cough", "Blotchy red rash", "Swollen glands", "Pus on tonsils"],
      ["Consult a healthcare provider"],
      ["antibiotics working", "throat less sore", "fever reducing", "swelling down"],
      ["severe throat pain", "difficulty swallowing", "high fever", "body aches"],
      "bg-green-500"),
    Condition(
      "Bronchitis",
      ["Wet cough", "Chesty cough", "Body aches and pains"],
      ["Ibuprofen Caplets", "Beechams Cold and Flu Powder"],
      ["clearing", "improving", "less congested", "breathing easier"],
      ["wheezing", "shortness of breath", "chest tightness", "mucus"],
      "bg-yellow-500"),
    Condition(
      "Sinusitis",
      ["Headache", "Blocked nose", "Facial pressure", "Post-nasal drip"],
      ["Paracetamol", "Ibuprofen Caplets", "Nasal Decongestants"],
      ["draining", "pressure relieving", "breathing easier", "headache reducing"],
      ["facial pain", "thick nasal discharge", "loss of smell", "toothache"],
      "bg-purple-500"),
    Condition(
      "Allergies",
      ["Congestion", "Post-nasal drip", "Allergic conjunctivitis", "Sneezing", "Runny nose"],
      ["Antihistamines", "Nasal Decongestants"],
      ["less sneezing", "eyes clearing", "breathing easier", "less itchy"],
      ["constant sneezing", "itchy eyes", "runny nose", "sinus pressure"],
      "bg-pink-500")
  ]

  /** No condition lists an empty symptom, wellness word or unwellness word. */
  ghost predicate KeywordsNonEmpty(catalog: seq<Condition>) {
    && (forall k, i :: 0 <= k < |catalog| && 0 <= i < |catalog[k].symptoms| ==>
          |catalog[k].symptoms[i]| > 0)
    && (forall k, i :: 0 <= k < |catalog| && 0 <= i < |catalog[k].wellnessWords| ==>
          |catalog[k].wellnessWords[i]| > 0)
    && (forall k, i :: 0 <= k < |catalog| && 0 <= i < |catalog[k].unwellnessWords| ==>
          |catalog[k].unwellnessWords[i]| > 0)
  }

  /** The table has six conditions and its keywords are all non-empty. */
  lemma ConditionsShape()
    ensures |Conditions| == 6
    ensures KeywordsNonEmpty(Conditions)
  {
    assert forall k, i :: 0 <= k < |Conditions| && 0 <= i < |Conditions[k].symptoms| ==>
      |Conditions[k].symptoms[i]| > 0;
    assert forall k, i :: 0 <= k < |Conditions| && 0 <= i < |Conditions[k].wellnessWords| ==>
      |Conditions[k].wellnessWords[i]| > 0;
    assert forall k, i :: 0 <= k < |Conditions| && 0 <= i < |Conditions[k].unwellnessWords| ==>
      |Conditions[k].unwellnessWords[i]| > 0;
  }

  /** Some condition of `catalog` lists `symptom`. */
  ghost predicate Listed(catalog: seq<Condition>, symptom: string) {
    exists k :: 0 <= k < |catalog| && symptom in catalog[k].symptoms
  }

  /** The symptom lists of all conditions, one after another (`flatMap`). */
  function FlatSymptoms(catalog: seq<Condition>): (r: seq<string>)
  {
    if catalog == [] then [] else catalog[0].symptoms + FlatSymptoms(catalog[1..])
  }

  /** A symptom is in the flattened lists exactly when some condition lists it. */
  lemma {:induction false} FlatSymptomsListed(catalog: seq<Condition>, symptom: string)
    ensures symptom in FlatSymptoms(catalog) <==> Listed(catalog, symptom)
  {
    if catalog != [] {
      FlatSymptomsListed(catalog[1..], symptom);
      if Listed(catalog[1..], symptom) {
        var k :| 0 <= k < |catalog| - 1 && symptom in catalog[1..][k].symptoms;
        assert symptom in catalog[k + 1].symptoms;
      }
      if Listed(catalog, symptom) && symptom !in catalog[0].symptoms {
        var k :| 0 <= k < |catalog| && symptom in catalog[k].symptoms;
        assert k != 0;
        assert symptom in catalog[1..][k - 1].symptoms;
      }
    }
  }

  /** `allSymptoms`: every listed symptom once, in first-seen order. */
  function AllSymptoms(catalog: seq<Condition>): (r: seq<string>)
  {
    Dedup(FlatSymptoms(catalog))
  }

  /**
   * The symptom universe is duplicate-free, holds exactly the symptoms some
   * condition lists, and orders them by where they first appear in the table.
   */
  lemma AllSymptomsSpec(catalog: seq<Condition>)
    ensures NoDups(AllSymptoms(catalog))
    ensures forall s :: s in AllSymptoms(catalog) <==> Listed(catalog, s)
    ensures forall i, j :: 0 <= i < j < |AllSymptoms(catalog)| ==>
              FirstIndex(FlatSymptoms(catalog), AllSymptoms(catalog)[i])
                < FirstIndex(FlatSymptoms(catalog), AllSymptoms(catalog)[j])
  {
    var flat := FlatSymptoms(catalog);
    forall s ensures s in AllSymptoms(catalog) <==> Listed(catalog, s) {
      FlatSymptomsListed(catalog, s);
    }
    DedupFirstSeenOrder(flat);
  }
}
