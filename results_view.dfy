/** The results screen (components/ResultsView.tsx): its figures are those
    of `HistoryView.StatsOf`, computed by the same loop, and the score is
    shown with one of four bands. */
module ResultsView {
  import opened QuizTypes
  import HistoryView

  datatype Band = Outstanding | GreatWork | Passable | NeedReview

  /** The `stats` memo: the history screen's counting loop run on the shown
      result, so the figures partition the questions and agree with the
      history screen's. */
  method Stats(result: QuizResult) returns (s: HistoryView.Stats)
    ensures s == HistoryView.StatsOf(result)
    ensures s.correct + s.wrong + s.skipped == s.total == |result.questions|
    ensures s.total > 0 ==> s.score.Some? && 0 <= s.score.value <= 100
  {
    s := HistoryView.GetStats(result);
    if s.total > 0 {
      HistoryView.ScoreRange(s.correct, s.total);
    }
  }

  /** `getScoreStatus`: the first band, top-down, whose threshold the score
      reaches; a `NaN` score reaches none. */
  function ScoreStatus(score: Option<int>): (b: Band)
    ensures b == Outstanding <==> score.Some? && score.value >= 90
    ensures b == GreatWork <==> score.Some? && 70 <= score.value < 90
    ensures b == Passable <==> score.Some? && 50 <= score.value < 70
    ensures b == NeedReview <==> score.None? || score.value < 50
  {
    if score.Some? && score.value >= 90 then Outstanding
    else if score.Some? && score.value >= 70 then GreatWork
    else if score.Some? && score.value >= 50 then Passable
    else NeedReview
  }

  /** Higher bands have higher ranks. */
  function Rank(b: Band): nat {
    match b
    case NeedReview => 0
    case Passable => 1
    case GreatWork => 2
    case Outstanding => 3
  }

  /** A higher score never earns a lower band. */
  lemma BandMonotone(s1: int, s2: int)
    requires s1 <= s2
    ensures Rank(ScoreStatus(Some(s1))) <= Rank(ScoreStatus(Some(s2)))
  {
  }

  /** A quiz answered entirely correctly is outstanding; one with no correct
      answer needs review. */
  lemma BandOfExtremes(result: QuizResult)
    requires result.questions != []
    ensures HistoryView.StatsOf(result).correct == |result.questions| ==>
              ScoreStatus(HistoryView.StatsOf(result).score) == Outstanding
    ensures HistoryView.StatsOf(result).correct == 0 ==>
              ScoreStatus(HistoryView.StatsOf(result).score) == NeedReview
  {
    HistoryView.ScoreExtremes(|result.questions|);
  }
}
