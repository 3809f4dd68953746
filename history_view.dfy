/** Scoring of one attempt and the order of the history list
    (components/HistoryView.tsx; the results screen repeats the same
    scoring loop). Each question is judged skipped, correct or wrong from
    the answer stored under its id; the score is the rounded percentage of
    correct answers. */
module HistoryView {
  import opened QuizTypes
  import opened Strings

  datatype Verdict = Correct | Wrong | Skipped

  /** `s.trim().toLowerCase()` */
  function Normalize(s: string): string {
    ToLower(Trim(s))
  }

  /** `result.userAnswers[q.id]`, which is `undefined` when absent. */
  function AnswerFor(answers: map<int, Answer>, id: int): Option<Answer> {
    if id in answers then Some(answers[id]) else None
  }

  /** `userAnswer === undefined || userAnswer === ""` */
  predicate IsSkip(a: Option<Answer>) {
    a.None? || a == Some(Text(""))
  }

  /** The verdict on one question. A question with options is correct when
      the answer is exactly the correct index; a short-answer question is
      correct when the normalised answer is non-empty and equals the
      normalised canonical answer, which must be present and non-empty. */
  function Classify(q: Question, a: Option<Answer>): (v: Verdict)
    ensures v == Skipped <==> IsSkip(a)
    ensures v == Wrong ==> !IsSkip(a)
    ensures |q.options| > 0 && !IsSkip(a) ==>
              (v == Correct <==> q.correctOptionIndex.Some? && a.value == Index(q.correctOptionIndex.value))
    ensures |q.options| == 0 && !IsSkip(a) && a.value.Text? ==>
              (v == Correct <==> Normalize(a.value.s) != "" && q.answer.Some?
                                  && Normalize(a.value.s) == Normalize(q.answer.value))
  {
    if IsSkip(a) then Skipped
    else if |q.options| > 0 then
      if q.correctOptionIndex.Some? && a.value == Index(q.correctOptionIndex.value) then Correct else Wrong
    else
      match a.value
      case Text(s) =>
        var user := Normalize(s);
        if user != "" && q.answer.Some? && Normalize(q.answer.value) != "" && user == Normalize(q.answer.value)
        then Correct else Wrong
      case Index(_) => Wrong
  }

  /** The number of questions with verdict `v`. */
  function CountOf(qs: seq<Question>, answers: map<int, Answer>, v: Verdict): (n: nat)
    ensures n <= |qs|
  {
    if qs == [] then 0
    else
      CountOf(qs[..|qs| - 1], answers, v)
      + (if Classify(qs[|qs| - 1], AnswerFor(answers, qs[|qs| - 1].id)) == v then 1 else 0)
  }

  /** Every question lands in exactly one of the three buckets. */
  lemma {:induction false} CountsPartition(qs: seq<Question>, answers: map<int, Answer>)
    ensures CountOf(qs, answers, Correct) + CountOf(qs, answers, Wrong) + CountOf(qs, answers, Skipped) == |qs|
  {
    if qs != [] {
      CountsPartition(qs[..|qs| - 1], answers);
    }
  }

  /** A question whose answer is skipped is never counted wrong: adding
      skipped questions leaves the wrong count unchanged. */
  lemma {:induction false} SkippedNeverWrong(qs: seq<Question>, answers: map<int, Answer>)
    requires forall i :: 0 <= i < |qs| ==> IsSkip(AnswerFor(answers, qs[i].id))
    ensures CountOf(qs, answers, Wrong) == 0 && CountOf(qs, answers, Correct) == 0
    ensures CountOf(qs, answers, Skipped) == |qs|
  {
    if qs != [] {
      SkippedNeverWrong(qs[..|qs| - 1], answers);
    }
  }

  /** `Math.round((correct / total) * 100)` on the exact ratio: rounding
      half up, and `NaN` (here `None`) for an empty quiz. The source rounds
      a floating-point product, which can fall just below a half. */
  function Score(correct: nat, total: nat): (r: Option<int>)
    ensures r.None? <==> total == 0
    ensures r.Some? ==> 2 * total * r.value <= 200 * correct + total < 2 * total * (r.value + 1)
  {
    if total == 0 then None
    else
      var q := (200 * correct + total) / (2 * total);
      DivBounds(200 * correct + total, 2 * total);
      Some(q)
  }

  lemma DivBounds(a: nat, b: nat)
    requires b > 0
    ensures b * (a / b) <= a < b * (a / b + 1)
  {
  }

  /** For a non-empty quiz the score is a percentage. */
  lemma ScoreRange(correct: nat, total: nat)
    requires 0 < total && correct <= total
    ensures 0 <= Score(correct, total).value <= 100
  {
    var r := Score(correct, total).value;
    if r > 100 {
      assert 2 * total * r >= 2 * total * 101 by {
        MulMonotone(2 * total, 101, r);
      }
    }
    if r < 0 {
      assert 2 * total * (r + 1) <= 0 by {
        MulMonotone(2 * total, r + 1, 0);
      }
    }
  }

  lemma MulMonotone(k: nat, x: int, y: int)
    requires x <= y
    ensures k * x <= k * y
  {
  }

  /** All correct scores 100, none correct scores 0. */
  lemma ScoreExtremes(total: nat)
    requires total > 0
    ensures Score(total, total) == Some(100)
    ensures Score(0, total) == Some(0)
  {
    var k := 2 * total;
    var full := Score(total, total).value;
    if full > 100 {
      MulMonotone(k, 101, full);
    } else if full < 100 {
      MulMonotone(k, full + 1, 100);
    }
    var none := Score(0, total).value;
    if none > 0 {
      MulMonotone(k, 1, none);
    } else if none < 0 {
      MulMonotone(k, none + 1, 0);
    }
  }

  /** Seven of nine rounds up from 77.7 to 78. */
  lemma SevenOfNine()
    ensures Score(7, 9) == Some(78)
  {
  }

  /** The figures shown for one attempt. */
  datatype Stats = Stats(correct: nat, wrong: nat, skipped: nat, score: Option<int>, total: nat)

  /** The figures `getStats` computes, as a function of the attempt. */
  function StatsOf(result: QuizResult): (s: Stats)
    ensures s.correct + s.wrong + s.skipped == s.total == |result.questions|
    ensures s.score == Score(s.correct, s.total)
  {
    var qs := result.questions;
    CountsPartition(qs, result.userAnswers);
    var c := CountOf(qs, result.userAnswers, Correct);
    Stats(c, CountOf(qs, result.userAnswers, Wrong), CountOf(qs, result.userAnswers, Skipped),
          Score(c, |qs|), |qs|)
  }

  /** `calculateScore` */
  function CalculateScore(result: QuizResult): (score: Option<int>)
    ensures score.None? <==> result.questions == []
    ensures score.Some? ==> 0 <= score.value <= 100
  {
    var s := StatsOf(result);
    if s.total > 0 then
      ScoreRange(s.correct, s.total);
      s.score
    else s.score
  }

  /** `getStats`: one pass over the questions with three counters. */
  method GetStats(result: QuizResult) returns (s: Stats)
    ensures s == StatsOf(result)
  {
    var correct, wrong, skipped := 0, 0, 0;
    var qs := result.questions;
    for i := 0 to |qs|
      invariant correct == CountOf(qs[..i], result.userAnswers, Correct)
      invariant wrong == CountOf(qs[..i], result.userAnswers, Wrong)
      invariant skipped == CountOf(qs[..i], result.userAnswers, Skipped)
    {
      assert qs[..i + 1][..i] == qs[..i];
      var q := qs[i];
      var userAnswer := AnswerFor(result.userAnswers, q.id);
      if IsSkip(userAnswer) {
        skipped := skipped + 1;
      } else if |q.options| > 0 {
        if q.correctOptionIndex.Some? && userAnswer.value == Index(q.correctOptionIndex.value) {
          correct := correct + 1;
        } else {
          wrong := wrong + 1;
        }
      } else {
        match userAnswer.value {
          case Text(t) =>
            var userTxt := Normalize(t);
            if userTxt != "" && q.answer.Some? && Normalize(q.answer.value) != ""
               && userTxt == Normalize(q.answer.value) {
              correct := correct + 1;
            } else {
              wrong := wrong + 1;
            }
          case Index(_) =>
            wrong := wrong + 1;
        }
      }
    }
    assert qs[..|qs|] == qs;
    s := Stats(correct, wrong, skipped, Score(correct, |qs|), |qs|);
  }

  // ---------------------------------------------------------------------
  // The displayed order of the history list

  /** Non-increasing timestamps. */
  predicate NewestFirst(h: seq<QuizResult>) {
    forall i, j :: 0 <= i < j < |h| ==> h[i].timestamp >= h[j].timestamp
  }

  /** Places `x` before the first entry that is not newer than it, so that
      entries with equal timestamps keep their relative order. */
  function Insert(x: QuizResult, h: seq<QuizResult>): (r: seq<QuizResult>)
    requires NewestFirst(h)
    ensures NewestFirst(r)
    ensures multiset(r) == multiset(h) + multiset{x}
    ensures |r| == |h| + 1 && (r[0] == x || (h != [] && r[0] == h[0]))
  {
    if h == [] then [x]
    else if h[0].timestamp <= x.timestamp then
      ConsNewestFirst(x, h);
      [x] + h
    else
      NewestFirstTail(h);
      var rest := Insert(x, h[1..]);
      ConsNewestFirst(h[0], rest);
      MultisetCons(h);
      MultisetOfCons(h[0], rest);
      assert multiset([h[0]] + rest) == multiset{h[0]} + multiset(h[1..]) + multiset{x};
      [h[0]] + rest
  }

  lemma NewestFirstTail(h: seq<QuizResult>)
    requires h != [] && NewestFirst(h)
    ensures NewestFirst(h[1..])
  {
    forall i, j | 0 <= i < j < |h| - 1
      ensures h[1..][i].timestamp >= h[1..][j].timestamp
    {
      assert h[1..][i] == h[i + 1] && h[1..][j] == h[j + 1];
    }
  }

  /** An entry no older than the head of a newest-first list can go first. */
  lemma ConsNewestFirst(x: QuizResult, h: seq<QuizResult>)
    requires NewestFirst(h) && (h != [] ==> x.timestamp >= h[0].timestamp)
    ensures NewestFirst([x] + h)
  {
    var r := [x] + h;
    forall i, j | 0 <= i < j < |r|
      ensures r[i].timestamp >= r[j].timestamp
    {
      assert r[j] == h[j - 1];
      if i > 0 {
        assert r[i] == h[i - 1];
      } else if j > 1 {
        assert h[0].timestamp >= h[j - 1].timestamp;
      }
    }
  }

  lemma MultisetCons<T>(s: seq<T>)
    requires s != []
    ensures multiset(s) == multiset{s[0]} + multiset(s[1..])
  {
    assert s == [s[0]] + s[1..];
  }

  lemma MultisetOfCons<T>(x: T, s: seq<T>)
    ensures multiset([x] + s) == multiset{x} + multiset(s)
  {
  }

  /** `[...history].sort((a, b) => b.timestamp - a.timestamp)`: a stable
      sort, newest first, of a copy; the stored list is not reordered. */
  function SortedHistory(h: seq<QuizResult>): (r: seq<QuizResult>)
    ensures NewestFirst(r)
    ensures multiset(r) == multiset(h)
    ensures |r| == |h|
  {
    if h == [] then []
    else
      assert h == [h[0]] + h[1..];
      var r := Insert(h[0], SortedHistory(h[1..]));
      assert |r| == |multiset(r)|;
      r
  }

  /** The entries with timestamp `t`, in order. */
  function WithTime(h: seq<QuizResult>, t: int): seq<QuizResult> {
    if h == [] then []
    else (if h[0].timestamp == t then [h[0]] else []) + WithTime(h[1..], t)
  }

  lemma {:induction false} InsertWithTime(x: QuizResult, h: seq<QuizResult>, t: int)
    requires NewestFirst(h)
    ensures WithTime(Insert(x, h), t) == (if x.timestamp == t then [x] else []) + WithTime(h, t)
  {
    var xs: seq<QuizResult> := if x.timestamp == t then [x] else [];
    if h != [] && h[0].timestamp > x.timestamp {
      NewestFirstTail(h);
      var rest := Insert(x, h[1..]);
      InsertWithTime(x, h[1..], t);
      var hs: seq<QuizResult> := if h[0].timestamp == t then [h[0]] else [];
      assert Insert(x, h) == [h[0]] + rest;
      WithTimeCons(h[0], rest, t);
      assert hs == [] || xs == [];
      calc {
        WithTime(Insert(x, h), t);
        hs + (xs + WithTime(h[1..], t));
        { Associative(hs, xs, WithTime(h[1..], t)); }
        xs + (hs + WithTime(h[1..], t));
        xs + WithTime(h, t);
      }
    } else {
      assert Insert(x, h) == [x] + h;
      WithTimeCons(x, h, t);
    }
  }

  lemma WithTimeCons(a: QuizResult, s: seq<QuizResult>, t: int)
    ensures WithTime([a] + s, t) == (if a.timestamp == t then [a] else []) + WithTime(s, t)
  {
    DropHead(a, s);
  }

  /** One of the first two parts is empty, so they may change places. */
  lemma Associative<T>(p: seq<T>, q: seq<T>, r: seq<T>)
    requires p == [] || q == []
    ensures p + (q + r) == q + (p + r)
  {
    if p == [] {
      assert p + (q + r) == q + r;
      assert p + r == r;
    } else {
      assert q + r == r;
      assert q + (p + r) == p + r;
    }
  }

  /** The sort is stable: attempts with the same timestamp appear in the
      order in which they are stored. */
  lemma {:induction false} SortedHistoryStable(h: seq<QuizResult>, t: int)
    ensures WithTime(SortedHistory(h), t) == WithTime(h, t)
  {
    if h != [] {
      SortedHistoryStable(h[1..], t);
      InsertWithTime(h[0], SortedHistory(h[1..]), t);
    }
  }
}
