/** The colour of the wrongful-conviction gauge (`components/RiskScore.tsx`). */
module RiskScore {

  datatype ScoreColor = Red | Amber | Green

  /** `getScoreColor`: above 75 red, above 50 amber, otherwise green. */
  function ScoreColorOf(score: real): (r: ScoreColor)
    ensures r == Red <==> score > 75.0
    ensures r == Amber <==> 50.0 < score <= 75.0
    ensures r == Green <==> score <= 50.0
  {
    if score > 75.0 then Red
    else if score > 50.0 then Amber
    else Green
  }

  function ColorClass(c: ScoreColor): string {
    match c
    case Red => "text-red-500"
    case Amber => "text-amber-500"
    case Green => "text-green-500"
  }

  /** The colour never falls as the score rises: the bands are ordered. */
  lemma ColorMonotone(a: real, b: real)
    requires a <= b
    ensures ScoreColorOf(a) == Red ==> ScoreColorOf(b) == Red
    ensures ScoreColorOf(b) == Green ==> ScoreColorOf(a) == Green
  {
  }

  /** The band edges: 75 is amber and 50 is green. */
  lemma BandEdges()
    ensures ScoreColorOf(75.0) == Amber && ScoreColorOf(50.0) == Green
    ensures ColorClass(ScoreColorOf(75.0)) == "text-amber-500"
  {
  }
}
