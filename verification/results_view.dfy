/** The colour classifiers of the results page: a score band by thresholds and a
    confidence label by exact match. */
module ResultsView {

  const Green: string := "#4CAF50"
  const Orange: string := "#FF9800"
  const Red: string := "#F44336"
  const Grey: string := "#9E9E9E"

  /** The bands in increasing order of merit. */
  function BandRank(color: string): int {
    if color == Green then 2 else if color == Orange then 1 else 0
  }

  /** `getScoreColor`: green from 80, orange from 60, red below. */
  function ScoreColor(score: int): (r: string)
    ensures r == Green <==> score >= 80
    ensures r == Orange <==> 60 <= score < 80
    ensures r == Red <==> score < 60
  {
    if score >= 80 then Green
    else if score >= 60 then Orange
    else Red
  }

  /** A higher score never lands in a lower band. */
  lemma ScoreColorMonotone(a: int, b: int)
    requires a <= b
    ensures BandRank(ScoreColor(a)) <= BandRank(ScoreColor(b))
  {
  }

  /** `getConfidenceColor`: haute, moyenne and basse read like the score bands;
      any other label is grey. */
  function ConfidenceColor(confidence: string): (r: string)
    ensures r == Green <==> confidence == "haute"
    ensures r == Orange <==> confidence == "moyenne"
    ensures r == Red <==> confidence == "basse"
    ensures r == Grey <==> confidence != "haute" && confidence != "moyenne" && confidence != "basse"
  {
    if confidence == "haute" then Green
    else if confidence == "moyenne" then Orange
    else if confidence == "basse" then Red
    else Grey
  }
}
