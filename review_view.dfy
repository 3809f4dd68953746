/** The review screen (components/ReviewView.tsx): the explanation text is
    split around `**bold**` runs, and each question is shown as correct,
    skipped or incorrect by its own rule, which differs from the scoring
    rule for blank answers. */
module ReviewView {
  import opened QuizTypes
  import opened Strings
  import HistoryView

  // ---------------------------------------------------------------------
  // `text.split(/(\*\*.*?\*\*)/g)`

  /** The characters `.` does not match. */
  predicate IsLineTerminator(c: char) {
    c == '\n' || c == '\r' || c == '\U{2028}' || c == '\U{2029}'
  }

  /** `**` starts at index `k`. */
  predicate DelimAt(s: string, k: int) {
    0 <= k && k + 2 <= |s| && s[k] == '*' && s[k + 1] == '*'
  }

  /** The lazy `.*?\*\*` from index `q`: the first `**`, provided no line
      terminator comes before it. */
  function CloseFrom(s: string, q: nat): (r: Option<nat>)
    ensures r.Some? ==> q <= r.value && DelimAt(s, r.value)
    ensures r.Some? ==> forall k :: q <= k < r.value ==> !DelimAt(s, k) && !IsLineTerminator(s[k])
    decreases |s| - q
  {
    if q + 2 > |s| then None
    else if DelimAt(s, q) then Some(q)
    else if IsLineTerminator(s[q]) then None
    else CloseFrom(s, q + 1)
  }

  /** The end of the match of the pattern starting exactly at `p`, if any. */
  function MatchAt(s: string, p: nat): Option<nat> {
    if DelimAt(s, p) then
      match CloseFrom(s, p + 2)
      case Some(c) => Some(c + 2)
      case None => None
    else None
  }

  /** A match `s[a..b]`: `**`, then text with no line terminator and no
      `**`, then `**`. */
  predicate IsBoldRun(x: string) {
    && |x| >= 4
    && x[0] == '*' && x[1] == '*' && x[|x| - 2] == '*' && x[|x| - 1] == '*'
    && (forall k :: 2 <= k < |x| - 2 ==> !IsLineTerminator(x[k]))
    && (forall k :: 2 <= k < |x| - 2 ==> !DelimAt(x, k))
  }

  /** The leftmost match starting at or after `q`, as (start, end). */
  function FirstMatch(s: string, q: nat): (m: Option<(nat, nat)>)
    ensures m.Some? ==> q <= m.value.0 && m.value.0 + 4 <= m.value.1 <= |s|
    ensures m.Some? ==> IsBoldRun(s[m.value.0..m.value.1])
    ensures m.Some? ==> forall k :: q <= k < m.value.0 ==> MatchAt(s, k).None?
    ensures m.None? ==> forall k :: q <= k ==> MatchAt(s, k).None?
    decreases |s| - q
  {
    if q >= |s| then None
    else
      match MatchAt(s, q)
      case Some(e) =>
        var x := s[q..e];
        assert forall k :: 2 <= k < |x| - 2 ==> x[k] == s[q + k];
        Some((q, e))
      case None => FirstMatch(s, q + 1)
  }

  /** The run found is the match that starts where it starts. */
  lemma {:induction false} FirstMatchIsMatch(s: string, q: nat)
    requires FirstMatch(s, q).Some?
    ensures MatchAt(s, FirstMatch(s, q).value.0) == Some(FirstMatch(s, q).value.1)
    decreases |s| - q
  {
    if MatchAt(s, q).None? {
      FirstMatchIsMatch(s, q + 1);
    }
  }

  /** The concatenation of the pieces. */
  function Concat(parts: seq<string>): string {
    if parts == [] then "" else parts[0] + Concat(parts[1..])
  }

  /** The pieces of `s[p..]`: the text before each match, then the match
      itself (it is a capture group), and finally the text after the last
      match. */
  function SplitFrom(s: string, p: nat): (parts: seq<string>)
    requires p <= |s|
    ensures |parts| % 2 == 1
    ensures forall i :: 0 <= i < |parts| && i % 2 == 1 ==> IsBoldRun(parts[i])
    ensures Concat(parts) == s[p..]
    decreases |s| - p
  {
    match FirstMatch(s, p)
    case None => [s[p..]]
    case Some((a, b)) =>
      var rest := SplitFrom(s, b);
      var parts := [s[p..a], s[a..b]] + rest;
      DropTwo(s[p..a], s[a..b], rest);
      SliceThree(s, p, a, b);
      forall i | 0 <= i < |parts| && i % 2 == 1
        ensures IsBoldRun(parts[i])
      {
        if i > 1 {
          assert parts[i] == rest[i - 2] && (i - 2) % 2 == 1;
        }
      }
      parts
  }

  lemma DropTwo<T>(x: T, y: T, rest: seq<T>)
    ensures ([x, y] + rest)[1..] == [y] + rest
    ensures ([x, y] + rest)[1..][1..] == rest
    ensures ([x, y] + rest)[2..] == rest
  {
  }

  lemma SliceThree<T>(s: seq<T>, p: nat, a: nat, b: nat)
    requires p <= a <= b <= |s|
    ensures s[p..] == s[p..a] + (s[a..b] + s[b..])
  {
  }

  /** No match of the pattern starts at an index in `lo..hi`. */
  predicate NoMatchIn(s: string, lo: int, hi: int) {
    forall k: nat :: lo <= k < hi ==> MatchAt(s, k).None?
  }

  /** `parts` read from index `p` of `s` are what the global split makes:
      a plain piece in which no match starts, then, when more pieces follow,
      the match that starts right after it, and so on from its end. */
  predicate LeftmostSplit(s: string, p: nat, parts: seq<string>)
    decreases |parts|
  {
    && |parts| >= 1
    && NoMatchIn(s, p, p + |parts[0]|)
    && (|parts| >= 2 ==>
          && MatchAt(s, p + |parts[0]|) == Some(p + |parts[0]| + |parts[1]|)
          && LeftmostSplit(s, p + |parts[0]| + |parts[1]|, parts[2..]))
  }

  /** The split finds the matches leftmost first: no match starts inside a
      plain piece. */
  lemma {:induction false} SplitFromLeftmost(s: string, p: nat)
    requires p <= |s|
    ensures LeftmostSplit(s, p, SplitFrom(s, p))
    decreases |s| - p
  {
    match FirstMatch(s, p)
    case None =>
    case Some((a, b)) =>
      FirstMatchIsMatch(s, p);
      SplitFromLeftmost(s, b);
      DropTwo(s[p..a], s[a..b], SplitFrom(s, b));
  }

  /** The split is the only one with its properties: pieces that put back
      together give the text, read leftmost first. */
  lemma {:induction false} SplitFromUnique(s: string, p: nat, parts: seq<string>)
    requires p <= |s|
    requires Concat(parts) == s[p..] && LeftmostSplit(s, p, parts)
    ensures parts == SplitFrom(s, p)
    decreases |parts|
  {
    if |parts| == 1 {
      assert parts[1..] == [];
      assert parts[0] == s[p..];
      FirstMatchNone(s, p);
      assert parts == [s[p..]];
    } else {
      var a := p + |parts[0]|;
      var b := a + |parts[1]|;
      var rest := parts[2..];
      assert NoMatchIn(s, p, a) && MatchAt(s, a) == Some(b) && LeftmostSplit(s, b, rest);
      UniqueStep(s, p, parts, a, b, rest);
      SplitFromUnique(s, b, rest);
      Reassemble(parts);
    }
  }

  /** The first two pieces are the text up to the leftmost match and that
      match, and the rest puts back together the text after it. */
  lemma UniqueStep(s: string, p: nat, parts: seq<string>, a: nat, b: nat, rest: seq<string>)
    requires p <= |s| && |parts| >= 2 && a == p + |parts[0]| && b == a + |parts[1]| && rest == parts[2..]
    requires Concat(parts) == s[p..] && NoMatchIn(s, p, a) && MatchAt(s, a) == Some(b)
    ensures b <= |s| && Concat(rest) == s[b..]
    ensures SplitFrom(s, p) == [parts[0], parts[1]] + SplitFrom(s, b)
  {
    ConcatFirstTwo(parts);
    ThreePieces(s, p, parts[0], parts[1], Concat(rest));
    FirstMatchIs(s, p, a);
    SplitFromStep(s, p, a, b, parts[0], parts[1]);
  }

  lemma Reassemble<T>(xs: seq<T>)
    requires |xs| >= 2
    ensures xs == [xs[0], xs[1]] + xs[2..]
  {
  }

  lemma SplitFromStep(s: string, p: nat, a: nat, b: nat, x: string, y: string)
    requires p <= |s| && FirstMatch(s, p) == Some((a, b))
    requires x == s[p..a] && y == s[a..b]
    ensures b <= |s| && SplitFrom(s, p) == [x, y] + SplitFrom(s, b)
  {
  }

  lemma ConcatFirstTwo(parts: seq<string>)
    requires |parts| >= 2
    ensures Concat(parts) == parts[0] + (parts[1] + Concat(parts[2..]))
  {
    assert parts[1..][0] == parts[1] && parts[1..][1..] == parts[2..];
  }

  lemma ThreePieces<T>(s: seq<T>, p: nat, x: seq<T>, y: seq<T>, z: seq<T>)
    requires p <= |s| && x + (y + z) == s[p..]
    ensures p + |x| + |y| <= |s|
    ensures x == s[p..p + |x|] && y == s[p + |x|..p + |x| + |y|] && z == s[p + |x| + |y|..]
  {
    assert x == s[p..][..|x|] && y + z == s[p..][|x|..];
    assert y == (y + z)[..|y|] && z == (y + z)[|y|..];
  }

  /** Without a match from `p` on, the search finds none. */
  lemma FirstMatchNone(s: string, p: nat)
    requires NoMatchIn(s, p, |s|)
    ensures FirstMatch(s, p).None?
  {
    if FirstMatch(s, p).Some? {
      FirstMatchIsMatch(s, p);
    }
  }

  /** A match at `a` with none between `p` and `a` is the one the search
      finds. */
  lemma FirstMatchIs(s: string, p: nat, a: nat)
    requires p <= a && NoMatchIn(s, p, a) && MatchAt(s, a).Some?
    ensures FirstMatch(s, p) == Some((a, MatchAt(s, a).value))
  {
    var m := FirstMatch(s, p);
    if m.Some? {
      FirstMatchIsMatch(s, p);
      assert m.value.0 == a;
    }
  }

  /** The explanation split around its bold runs: the pieces put back
      together give the text, every second piece is a bold run, and the
      runs are found leftmost first. */
  function SplitBold(text: string): (parts: seq<string>)
    ensures |parts| % 2 == 1
    ensures Concat(parts) == text
    ensures forall i :: 0 <= i < |parts| && i % 2 == 1 ==> IsBoldRun(parts[i])
    ensures LeftmostSplit(text, 0, parts)
  {
    SplitFromLeftmost(text, 0);
    SplitFrom(text, 0)
  }

  /** An explanation stays one plain piece exactly when it holds no bold
      run. */
  lemma SplitBoldWhole(text: string)
    ensures SplitBold(text) == [text] <==> NoMatchIn(text, 0, |text|)
  {
    if NoMatchIn(text, 0, |text|) {
      FirstMatchNone(text, 0);
    }
  }

  /** A displayed span. */
  datatype Span = Plain(text: string) | Bold(text: string)

  predicate Delimited(part: string) {
    |part| >= 2 && part[..2] == "**" && part[|part| - 2..] == "**"
  }

  /** `part.slice(2, -2)` in bold for a piece that starts and ends with
      `**` (empty when the two overlap), the piece itself otherwise. */
  function Render(part: string): (r: Span)
    ensures r.Plain? <==> !Delimited(part)
    ensures r.Plain? ==> r.text == part
    ensures r.Bold? ==> |r.text| == if |part| >= 4 then |part| - 4 else 0
  {
    if Delimited(part) then Bold(if |part| >= 4 then part[2..|part| - 2] else "")
    else Plain(part)
  }

  /** The text a span stands for, with the delimiters put back. */
  function Shown(r: Span): string {
    match r
    case Plain(t) => t
    case Bold(t) => "**" + t + "**"
  }

  /** Every bold run is rendered bold, and putting its delimiters back gives
      the run itself. */
  lemma BoldRunRenders(x: string)
    requires IsBoldRun(x)
    ensures Render(x).Bold? && Shown(Render(x)) == x
  {
    assert x[..2] == "**" && x[|x| - 2..] == "**";
    assert x == x[..2] + x[2..|x| - 2] + x[|x| - 2..];
  }

  /** Rendering loses only the delimiters: putting them back gives the
      piece, except for a bare `**` or `***`, which is shown as an empty bold
      span and so gains characters. */
  lemma RenderRoundTrip(part: string)
    ensures Shown(Render(part)) == part <==> part != "**" && part != "***"
    ensures |Shown(Render(part))| >= |part|
  {
    if Delimited(part) {
      if |part| >= 4 {
        assert part == part[..2] + part[2..|part| - 2] + part[|part| - 2..];
        assert part != "**" && part != "***";
      } else if |part| == 2 {
        assert part == part[..2];
      } else {
        assert part[0] == part[..2][0] && part[1] == part[..2][1] && part[2] == part[|part| - 2..][1];
        assert part == "***";
      }
    } else {
      assert Delimited("**") && Delimited("***");
    }
  }

  /** The shown text of all spans. */
  function ShownAll(parts: seq<string>): string {
    if parts == [] then "" else Shown(Render(parts[0])) + ShownAll(parts[1..])
  }

  /** Rendering piece by piece and putting the delimiters back gives the
      concatenation exactly when no piece is a bare `**` or `***`. */
  lemma {:induction false} ShownAllConcat(parts: seq<string>)
    ensures |ShownAll(parts)| >= |Concat(parts)|
    ensures ShownAll(parts) == Concat(parts) <==>
              forall i :: 0 <= i < |parts| ==> parts[i] != "**" && parts[i] != "***"
  {
    if parts != [] {
      RenderRoundTrip(parts[0]);
      ShownAllConcat(parts[1..]);
      var x, y := Shown(Render(parts[0])), ShownAll(parts[1..]);
      EqualConcat(x, y, parts[0], Concat(parts[1..]));
      assert forall i :: 1 <= i < |parts| ==> parts[i] == parts[1..][i - 1];
    }
  }

  /** Two concatenations whose parts are at least as long on the left are
      equal exactly when the parts are. */
  lemma EqualConcat<T>(x: seq<T>, y: seq<T>, u: seq<T>, v: seq<T>)
    requires |x| >= |u| && |y| >= |v|
    ensures x + y == u + v <==> x == u && y == v
  {
    if x + y == u + v {
      assert x == (x + y)[..|x|] && u == (u + v)[..|u|];
      assert y == (x + y)[|x|..] && v == (u + v)[|u|..];
    }
  }

  /** The rendered explanation, read with the delimiters put back, is the
      original explanation exactly when no plain piece is a bare `**` or
      `***`. */
  lemma ExplanationRoundTrip(text: string)
    ensures ShownAll(SplitBold(text)) == text <==>
              forall i :: 0 <= i < |SplitBold(text)| && i % 2 == 0 ==>
                SplitBold(text)[i] != "**" && SplitBold(text)[i] != "***"
  {
    var parts := SplitBold(text);
    forall i | 0 <= i < |parts| && i % 2 == 1 ensures parts[i] != "**" && parts[i] != "***" {
      assert IsBoldRun(parts[i]);
    }
    ShownAllConcat(parts);
  }

  // ---------------------------------------------------------------------
  // Per-question review

  /** The review's `isCorrect`. A short-answer question compares the
      optional normalised texts, so a missing answer to a question without a
      canonical answer counts as correct; an option question compares the
      answer with `correctOptionIndex`, missing on both sides included. */
  function IsCorrect(q: Question, a: Option<Answer>): (ok: bool)
    ensures |q.options| == 0 && a.None? ==> (ok <==> q.answer.None?)
    ensures |q.options| == 0 && a.Some? && a.value.Text? ==>
              (ok <==> q.answer.Some? && HistoryView.Normalize(a.value.s) == HistoryView.Normalize(q.answer.value))
    ensures |q.options| > 0 ==>
              (ok <==> ((a.None? && q.correctOptionIndex.None?)
                        || (a.Some? && a.value.Index? && q.correctOptionIndex == Some(a.value.i))))
  {
    if |q.options| == 0 then
      match a
      case None => q.answer.None?
      case Some(Text(s)) => q.answer.Some? && HistoryView.Normalize(s) == HistoryView.Normalize(q.answer.value)
      case Some(Index(_)) => false
    else
      match a
      case None => q.correctOptionIndex.None?
      case Some(Index(i)) => q.correctOptionIndex == Some(i)
      case Some(Text(_)) => false
  }

  datatype CardState = CardCorrect | CardSkipped | CardIncorrect

  /** The card's colour and badge: correct first, then skipped, then
      incorrect. */
  function CardStateOf(q: Question, a: Option<Answer>): (c: CardState)
    ensures c == CardCorrect <==> IsCorrect(q, a)
    ensures c == CardSkipped <==> !IsCorrect(q, a) && HistoryView.IsSkip(a)
    ensures c == CardIncorrect <==> !IsCorrect(q, a) && !HistoryView.IsSkip(a)
  {
    if IsCorrect(q, a) then CardCorrect
    else if HistoryView.IsSkip(a) then CardSkipped
    else CardIncorrect
  }

  datatype OptionMark = MarkedCorrect | MarkedWrong | Unmarked

  /** The mark on option `k`. */
  function OptionMarkOf(q: Question, a: Option<Answer>, k: int): (m: OptionMark)
    ensures q.correctOptionIndex == Some(k) ==> m == MarkedCorrect
    ensures q.correctOptionIndex != Some(k) && a == Some(Index(k)) ==> m == MarkedWrong
    ensures m == Unmarked <==> q.correctOptionIndex != Some(k) && a != Some(Index(k))
  {
    if q.correctOptionIndex == Some(k) then MarkedCorrect
    else if a == Some(Index(k)) then MarkedWrong
    else Unmarked
  }

  /** Exactly one option is marked correct when the correct index is one of
      the options, and at most one is marked wrong. */
  lemma OptionMarksUnique(q: Question, a: Option<Answer>, j: int, k: int)
    requires j != k
    ensures !(OptionMarkOf(q, a, j) == MarkedCorrect && OptionMarkOf(q, a, k) == MarkedCorrect)
    ensures !(OptionMarkOf(q, a, j) == MarkedWrong && OptionMarkOf(q, a, k) == MarkedWrong)
  {
  }

  /** For an answered question the review agrees with the score, provided a
      short answer is not blank after trimming. */
  lemma ReviewAgreesWithScoring(q: Question, a: Option<Answer>)
    requires !HistoryView.IsSkip(a)
    requires |q.options| == 0 ==> a.value.Text? && HistoryView.Normalize(a.value.s) != ""
    ensures IsCorrect(q, a) <==> HistoryView.Classify(q, a) == HistoryView.Correct
    ensures CardStateOf(q, a) == CardIncorrect <==> HistoryView.Classify(q, a) == HistoryView.Wrong
  {
  }

  /** Where the two rules part: an unanswered short-answer question without
      a canonical answer is skipped in the score but shown as correct. */
  lemma UnansweredWithoutAnswerShownCorrect(q: Question)
    requires |q.options| == 0 && q.answer.None?
    ensures HistoryView.Classify(q, None) == HistoryView.Skipped
    ensures CardStateOf(q, None) == CardCorrect
  {
  }
}
