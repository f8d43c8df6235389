/**
 * `getRecommendations`: the advice text for the top condition, chosen from
 * three score bands.
 */
module Advice {
  import opened Text

  /** The three bands of the wellness score. */
  datatype Band = High | Moderate | Low

  /** The band of a score: above 0.7 high, above 0.4 moderate, otherwise low. */
  function BandOf(score: real): (b: Band)
    ensures b == High <==> score > 0.7
    ensures b == Moderate <==> 0.4 < score <= 0.7
    ensures b == Low <==> score <= 0.4
  {
    if score > 0.7 then High else if score > 0.4 then Moderate else Low
  }

  /** The thresholds are strict: 0.7 is still moderate and 0.4 is still low. */
  lemma BandBoundaries()
    ensures BandOf(0.7) == Moderate && BandOf(0.4) == Low
    ensures BandOf(0.75) == High && BandOf(0.5) == Moderate && BandOf(0.2) == Low
  {
  }

  /** A higher score never falls into a lower band. */
  lemma BandMonotone(s: real, t: real)
    requires s <= t
    ensures BandOf(s) == High ==> BandOf(t) == High
    ensures BandOf(s) == Moderate ==> BandOf(t) != Low
  {
  }

  /** The words before the condition's name, shared by every template. */
  const Opening: string := "Your wellness score for "

  /** The advice after the band's name, for each band; the low advice goes on to name the condition. */
  const HighTail: string := ". Continue to monitor symptoms and maintain good health practices."
  const ModerateTail: string :=
    ". Rest, stay hydrated, and manage symptoms. If symptoms persist or worsen, consult a healthcare professional."
  const LowTail: string := ". It's advisable to consult a healthcare professional about your symptoms related to "

  /** The name of each band as the templates spell it. */
  function Word(band: Band): string {
    match band
    case High => "high"
    case Moderate => "moderate"
    case Low => "low"
  }

  /** The advice that follows the band's name; the low template names the condition again. */
  function Closing(topCondition: string, band: Band): string {
    match band
    case High => HighTail
    case Moderate => ModerateTail
    case Low => LowTail + topCondition + "."
  }

  /** The advice template of a band, with `topCondition` filled in. */
  function Message(topCondition: string, band: Band): string {
    Opening + topCondition + (" is " + Word(band) + Closing(topCondition, band))
  }

  /**
   * `getRecommendations(topCondition, wellnessScore)`: the template of the
   * score's band, which names the condition.
   */
  function Recommendation(topCondition: string, score: real): (r: string)
    ensures r == Message(topCondition, BandOf(score))
    ensures Opening <= r
    ensures Contains(r, topCondition)
    ensures Contains(r, " is " + Word(BandOf(score)))
  {
    var band := BandOf(score);
    var named := " is " + Word(band);
    var closing := Closing(topCondition, band);
    FilledTemplate(Opening, topCondition, named, closing);
    Message(topCondition, band)
  }

  /** A template `head + name + (named + tail)` contains both its name and its band phrase. */
  lemma FilledTemplate(head: string, name: string, named: string, tail: string)
    ensures head <= head + name + (named + tail)
    ensures Contains(head + name + (named + tail), name)
    ensures Contains(head + name + (named + tail), named)
  {
    ContainsMiddle(head, name, named + tail);
    ContainsMiddle(head + name, named, tail);
    assert head + name + (named + tail) == head + name + named + tail;
  }

  /** Two templates that share a head and a prefix differ when the words after that prefix begin differently. */
  lemma WordsSetApart(head: string, prefix: string, x: string, y: string, tailX: string, tailY: string)
    requires |x| > 0 && |y| > 0 && x[0] != y[0]
    ensures head + (prefix + x + tailX) != head + (prefix + y + tailY)
  {
    var i := |head| + |prefix|;
    assert (head + (prefix + x + tailX))[i] == x[0];
    assert (head + (prefix + y + tailY))[i] == y[0];
  }

  /** Different bands give different advice, whatever the condition's name. */
  lemma MessagesDiffer(topCondition: string, b: Band, c: Band)
    requires b != c
    ensures Message(topCondition, b) != Message(topCondition, c)
  {
    assert Word(High)[0] == 'h' && Word(Moderate)[0] == 'm' && Word(Low)[0] == 'l';
    WordsSetApart(Opening + topCondition, " is ", Word(b), Word(c), Closing(topCondition, b), Closing(topCondition, c));
  }
}
