/** The quiz screen (components/QuizInterface.tsx): the position, answers,
    remaining time and review flags of one running quiz, the checkpoint it
    saves after every change and restores on mount, the copy it mirrors
    into the history list, the timer and the finish gating. */
module QuizInterface {
  import opened QuizTypes
  import opened Strings
  import Storage

  // ---------------------------------------------------------------------
  // Values

  /** The part of the screen's state that is saved and restored. */
  datatype Progress = Progress(currentIndex: int, answers: map<int, Answer>, timeLeft: int, marked: seq<int>)

  predicate NoDup(s: seq<int>) {
    forall i, j :: 0 <= i < j < |s| ==> s[i] != s[j]
  }

  /** The `,`-joined ids identifying a question list. */
  function Fingerprint(qs: seq<Question>): (fp: string) {
    Join(IdStrings(Ids(qs)), ",")
  }

  function IdStrings(ids: seq<int>): (r: seq<string>)
    ensures |r| == |ids|
    ensures forall i :: 0 <= i < |ids| ==> r[i] == IntToString(ids[i])
  {
    seq(|ids|, i requires 0 <= i < |ids| => IntToString(ids[i]))
  }

  lemma {:induction false} JoinNonEmpty(xs: seq<string>)
    requires |xs| >= 1 && xs[0] != ""
    ensures Join(xs, ",") != ""
  {
  }

  /** Two question lists share a fingerprint exactly when they have the same
      ids in the same order. */
  lemma FingerprintInjective(a: seq<Question>, b: seq<Question>)
    ensures Fingerprint(a) == Fingerprint(b) <==> Ids(a) == Ids(b)
  {
    if Fingerprint(a) == Fingerprint(b) {
      var xa, xb := IdStrings(Ids(a)), IdStrings(Ids(b));
      forall i | 0 <= i < |xa| ensures ',' !in xa[i] {
        IntToStringAvoids(Ids(a)[i], ',');
      }
      forall i | 0 <= i < |xb| ensures ',' !in xb[i] {
        IntToStringAvoids(Ids(b)[i], ',');
      }
      if xa == [] || xb == [] {
        if xa != [] {
          JoinNonEmpty(xa);
        }
        if xb != [] {
          JoinNonEmpty(xb);
        }
      } else {
        SplitJoin(xa, ',');
        SplitJoin(xb, ',');
        forall i | 0 <= i < |xa| ensures Ids(a)[i] == Ids(b)[i] {
          IntToStringInjective(Ids(a)[i], Ids(b)[i]);
        }
      }
    }
  }

  // ---------------------------------------------------------------------
  // Navigation and answers

  /** The Previous button: one back, never below the first question. */
  function Previous(i: int): (r: int)
    ensures r >= 0
    ensures i > 0 ==> r == i - 1
    ensures i >= 0 ==> r <= i
  {
    if i - 1 > 0 then i - 1 else 0
  }

  /** The Next button: one forward, never past the last question. */
  function Next(i: int, n: int): (r: int)
    ensures r <= n - 1
    ensures i < n - 1 ==> r == i + 1
    ensures 0 <= i < n ==> 0 <= r < n
  {
    if n - 1 < i + 1 then n - 1 else i + 1
  }

  /** The review flags after toggling `id`: removed if present, else added
      at the end (the insertion order of a `Set`). */
  function Toggle(marked: seq<int>, id: int): (r: seq<int>)
    requires NoDup(marked)
    ensures NoDup(r)
    ensures id in r <==> id !in marked
    ensures forall x :: x != id ==> (x in r <==> x in marked)
  {
    if id in marked then Without(marked, id) else marked + [id]
  }

  /** `marked` with `id` taken out, order kept. */
  function Without(s: seq<int>, id: int): (r: seq<int>)
    ensures id !in r
    ensures forall x :: x != id ==> (x in r <==> x in s)
    ensures NoDup(s) ==> NoDup(r)
    ensures id !in s ==> r == s
  {
    if s == [] then []
    else
      var rest := Without(s[1..], id);
      assert forall x :: x in s[1..] ==> x in s;
      if s[0] == id then rest
      else
        assert NoDup(s) ==> s[0] !in s[1..];
        [s[0]] + rest
  }

  /** Two toggles give back the same flags. */
  lemma ToggleTwice(marked: seq<int>, id: int)
    requires NoDup(marked)
    ensures forall x :: x in Toggle(Toggle(marked, id), id) <==> x in marked
    ensures id !in marked ==> Toggle(Toggle(marked, id), id) == marked
  {
    if id !in marked {
      var once := marked + [id];
      assert Toggle(marked, id) == once;
      WithoutLast(marked, id);
    }
  }

  lemma {:induction false} WithoutLast(s: seq<int>, id: int)
    requires id !in s
    ensures Without(s + [id], id) == s
  {
    if s != [] {
      assert (s + [id])[1..] == s[1..] + [id];
      WithoutLast(s[1..], id);
      assert [s[0]] + s[1..] == s;
    }
  }

  /** `new Set(array)`: each element once. The body keeps first
      occurrences in order; the contract states only the members, which is
      all the restore effect relies on. */
  function Dedup(s: seq<int>): (r: seq<int>)
    ensures NoDup(r)
    ensures forall x :: x in r <==> x in s
  {
    if s == [] then []
    else
      var d := Dedup(s[..|s| - 1]);
      assert forall x :: x in s[..|s| - 1] ==> x in s;
      assert s == s[..|s| - 1] + [s[|s| - 1]];
      if s[|s| - 1] in d then d else d + [s[|s| - 1]]
  }

  lemma {:induction false} DedupOfDistinct(s: seq<int>)
    requires NoDup(s)
    ensures Dedup(s) == s
  {
    if s != [] {
      var init := s[..|s| - 1];
      assert NoDup(init);
      DedupOfDistinct(init);
      assert s[|s| - 1] !in init;
      assert init + [s[|s| - 1]] == s;
    }
  }

  // ---------------------------------------------------------------------
  // Timer

  /** `setTimeLeft(prev => ...)`: the new time, and whether submission
      fires. */
  function TickTime(t: int): (r: (int, bool))
    ensures r.0 >= 0
    ensures r.1 <==> t <= 1
    ensures !r.1 ==> r.0 == t - 1
    ensures r.1 ==> r.0 == 0
  {
    if t <= 1 then (0, true) else (t - 1, false)
  }

  /** `n.toString().padStart(2, '0')`: a one-character numeral gets a
      leading zero; a negative number already has two characters. */
  function Pad2(n: int): (r: string)
    ensures |r| >= 2
    ensures n >= 0 ==> AllDigits(r) && (n < 100 ==> |r| == 2)
    ensures n < 0 ==> r == IntToString(n) && r[0] == '-'
  {
    var t := IntToString(n);
    if |t| < 2 then "0" + t else t
  }

  lemma Pad2Value(n: nat)
    ensures DigitsValue(Pad2(n)) == n
  {
    NatToStringValue(n);
    if n < 10 {
      LeadingZeroValue(NatToString(n));
    }
  }

  /** JavaScript's `a % 60`: the remainder takes the sign of `a`, unlike
      Dafny's `%`, which is never negative. */
  function Rem60(a: int): (r: int)
    ensures -60 < r < 60
    ensures a >= 0 ==> r == a % 60
    ensures a < 0 ==> r == if a % 60 == 0 then 0 else a % 60 - 60
  {
    if a >= 0 then a % 60 else -((-a) % 60)
  }

  /** `formatTime`: `Math.floor(seconds / 60)` (Dafny's `/` by a positive
      number is already the floor), a colon, and `seconds % 60` with the
      sign of `seconds`, each padded to two characters. */
  function FormatTime(seconds: int): (r: string)
    ensures ':' in r
  {
    var r := Pad2(seconds / 60) + ":" + Pad2(Rem60(seconds));
    assert r[|Pad2(seconds / 60)|] == ':';
    r
  }

  /** Reading the display of a clock that has not gone below zero back:
      minutes times sixty plus seconds gives the seconds, and the seconds
      field has two digits below 60. */
  lemma FormatTimeRoundTrip(seconds: nat)
    ensures var parts := Split(FormatTime(seconds), ":");
            && |parts| == 2 && AllDigits(parts[0]) && AllDigits(parts[1])
            && |parts[1]| == 2 && DigitsValue(parts[1]) < 60
            && DigitsValue(parts[0]) * 60 + DigitsValue(parts[1]) == seconds
  {
    var m, s := Pad2(seconds / 60), Pad2(seconds % 60);
    assert ':' !in m && ':' !in s by {
      assert AllDigits(m) && AllDigits(s);
    }
    SplitAfterFirst(m, ':', s);
    SplitWithout(s, ':');
    Pad2Value(seconds / 60);
    Pad2Value(seconds % 60);
  }

  /** A clock below zero, as a resumed attempt longer than fifteen minutes
      can start with, shows negative minutes, and negative seconds too
      unless it is a whole number of minutes. */
  lemma FormatTimeNegative(seconds: int)
    requires seconds < 0
    ensures var parts := Split(FormatTime(seconds), ":");
            && |parts| == 2 && parts[0] == IntToString(seconds / 60) && parts[0][0] == '-'
            && (seconds % 60 == 0 ==> parts[1] == "00")
            && (seconds % 60 != 0 ==> parts[1] == IntToString(Rem60(seconds)) && parts[1][0] == '-')
  {
    var m, s := Pad2(seconds / 60), Pad2(Rem60(seconds));
    IntToStringAvoids(seconds / 60, ':');
    IntToStringAvoids(Rem60(seconds), ':');
    assert ':' !in m && ':' !in s by {
      if Rem60(seconds) == 0 {
        assert s == "00";
      }
    }
    SplitAfterFirst(m, ':', s);
    SplitWithout(s, ':');
    if seconds % 60 == 0 {
      assert Rem60(seconds) == 0;
    } else {
      assert Rem60(seconds) < 0;
    }
  }

  /** Five minutes below zero shows as `-5:00`, one second more as `-6:-1`. */
  lemma NegativeClockShown()
    ensures FormatTime(-300) == "-5:00"
    ensures FormatTime(-301) == "-6:-1"
  {
    assert Rem60(-300) == 0 && Rem60(-301) == -1;
    assert NatToString(5) == "5" && NatToString(6) == "6" && NatToString(1) == "1" && NatToString(0) == "0";
  }

  // ---------------------------------------------------------------------
  // Checkpoint and restore

  /** The checkpoint saved for progress `p` on the quiz `fp`. */
  function CheckpointOf(fp: string, p: Progress): Storage.Checkpoint {
    Storage.Checkpoint(fp, Some(p.currentIndex), Some(p.answers), Some(p.timeLeft), Some(p.marked))
  }

  /** The restore effect: a readable checkpoint whose fingerprint matches
      replaces the index (default 0) and answers (default none), and the
      time and flags when they are present; anything else leaves `p` as it
      is. */
  function RestoreFrom(p: Progress, saved: Storage.Slot<Storage.Checkpoint>, fp: string): (r: Progress)
    ensures !(saved.Stored? && saved.value.quizId == fp) ==> r == p
    ensures saved.Stored? && saved.value.quizId == fp ==>
              && r.currentIndex == saved.value.currentIndex.GetOr(0)
              && r.answers == saved.value.answers.GetOr(map[])
              && (saved.value.timeLeft.None? ==> r.timeLeft == p.timeLeft)
              && (saved.value.timeLeft.Some? ==> r.timeLeft == saved.value.timeLeft.value)
              && (saved.value.markedForReview.None? ==> r.marked == p.marked)
              && (saved.value.markedForReview.Some? ==>
                    forall x :: x in r.marked <==> x in saved.value.markedForReview.value)
    ensures NoDup(p.marked) ==> NoDup(r.marked)
  {
    if saved.Stored? && saved.value.quizId == fp then
      var cp := saved.value;
      Progress(cp.currentIndex.GetOr(0), cp.answers.GetOr(map[]),
               cp.timeLeft.GetOr(p.timeLeft),
               if cp.markedForReview.Some? then Dedup(cp.markedForReview.value) else p.marked)
    else p
  }

  /** What was saved is what is restored, on any quiz with the same ids. */
  lemma SaveRestoreRoundTrip(qs: seq<Question>, other: seq<Question>, p: Progress, initial: Progress)
    requires NoDup(p.marked) && Ids(other) == Ids(qs)
    ensures RestoreFrom(initial, Storage.Stored(CheckpointOf(Fingerprint(qs), p)), Fingerprint(other)) == p
  {
    FingerprintInjective(qs, other);
    DedupOfDistinct(p.marked);
  }

  /** A checkpoint saved for a question list with other ids is ignored. */
  lemma OtherQuizCheckpointIgnored(qs: seq<Question>, other: seq<Question>, p: Progress, initial: Progress)
    requires Ids(other) != Ids(qs)
    ensures RestoreFrom(initial, Storage.Stored(CheckpointOf(Fingerprint(qs), p)), Fingerprint(other)) == initial
  {
    FingerprintInjective(qs, other);
  }

  // ---------------------------------------------------------------------
  // The history mirror

  /** The outcome of `history.findIndex(...)`: the predicate reads
      `h.questions[0]` of every in-progress entry it inspects, which throws
      on an in-progress entry without questions. */
  datatype Target = Found(index: nat) | NotFound | Crashed

  /** The entry is in progress and its first question has the text. */
  predicate Matches(h: QuizResult, firstText: string) {
    h.status == InProgress && |h.questions| > 0 && h.questions[0].questionText == firstText
  }

  /** The predicate throws on this entry. */
  predicate Throws(h: QuizResult) {
    h.status == InProgress && |h.questions| == 0
  }

  /** The search passes over the first `n` entries: none matches and none
      throws. */
  predicate Passes(history: seq<QuizResult>, firstText: string, n: nat)
    requires n <= |history|
  {
    forall k :: 0 <= k < n ==> !Matches(history[k], firstText) && !Throws(history[k])
  }

  lemma PassesShift(history: seq<QuizResult>, firstText: string, n: nat)
    requires 0 < |history| && n < |history|
    requires !Matches(history[0], firstText) && !Throws(history[0])
    requires Passes(history[1..], firstText, n)
    ensures Passes(history, firstText, n + 1)
  {
    assert forall k :: 1 <= k < n + 1 ==> history[k] == history[1..][k - 1];
  }

  function MirrorTarget(history: seq<QuizResult>, firstText: string): (t: Target)
    ensures t.Found? ==> t.index < |history| && Matches(history[t.index], firstText)
                         && Passes(history, firstText, t.index)
    ensures t.NotFound? ==> Passes(history, firstText, |history|)
    ensures t.Crashed? ==> exists j :: 0 <= j < |history| && Throws(history[j]) && Passes(history, firstText, j)
    ensures forall i :: (0 <= i < |history| && Matches(history[i], firstText)
                         && forall j :: 0 <= j < i ==> !Throws(history[j])) ==> t.Found? && t.index <= i
  {
    if history == [] then NotFound
    else if Throws(history[0]) then Crashed
    else if Matches(history[0], firstText) then Found(0)
    else
      match MirrorTarget(history[1..], firstText)
      case Found(i) =>
        PassesShift(history, firstText, i);
        Found(i + 1)
      case NotFound =>
        PassesShift(history, firstText, |history| - 1);
        NotFound
      case Crashed =>
        var j :| 0 <= j < |history[1..]| && Throws(history[1..][j]) && Passes(history[1..], firstText, j);
        PassesShift(history, firstText, j);
        assert Throws(history[j + 1]);
        Crashed
  }

  /** The mirrored entry: the rest of the entry is kept. */
  function MirrorEntry(h: QuizResult, p: Progress, durationMinutes: int): (r: QuizResult)
    ensures r.id == h.id && r.title == h.title && r.timestamp == h.timestamp
    ensures r.status == h.status && r.questions == h.questions
    ensures r.userAnswers == p.answers && r.currentIndex == Some(p.currentIndex)
    ensures r.markedForReview == Some(p.marked)
    ensures r.timeTakenSeconds + p.timeLeft == durationMinutes * 60
  {
    h.(userAnswers := p.answers, timeTakenSeconds := durationMinutes * 60 - p.timeLeft,
       currentIndex := Some(p.currentIndex), markedForReview := Some(p.marked))
  }

  /** The history list after the mirror: only the first in-progress entry
      with the same first question is updated; with no such entry, or when
      the search throws, the list is left alone. */
  function Mirror(history: Storage.Slot<seq<QuizResult>>, firstText: string, p: Progress,
                  durationMinutes: int): (r: Storage.Slot<seq<QuizResult>>)
    ensures !history.Stored? ==> r == history
    ensures history.Stored? ==> r.Stored? && |r.value| == |history.value|
    ensures history.Stored? && MirrorTarget(history.value, firstText).Found? ==>
              var i := MirrorTarget(history.value, firstText).index;
              && r.value[i] == MirrorEntry(history.value[i], p, durationMinutes)
              && forall j :: 0 <= j < |r.value| && j != i ==> r.value[j] == history.value[j]
    ensures history.Stored? && !MirrorTarget(history.value, firstText).Found? ==> r == history
  {
    match history
    case Stored(h) =>
      (match MirrorTarget(h, firstText)
       case Found(i) => Storage.Stored(h[i := MirrorEntry(h[i], p, durationMinutes)])
       case NotFound => history
       case Crashed => history)
    case Absent => history
    case Corrupt => history
  }

  /** The first in-progress entry with the same first question is updated
      even when an entry after it would make the search throw. */
  lemma MirrorUpdatesFirstMatch(history: seq<QuizResult>, firstText: string, p: Progress,
                                durationMinutes: int, i: nat)
    requires i < |history| && Matches(history[i], firstText)
    requires forall j :: 0 <= j < i ==> !Matches(history[j], firstText) && !Throws(history[j])
    ensures var r := Mirror(Storage.Stored(history), firstText, p, durationMinutes);
            && r.value[i] == MirrorEntry(history[i], p, durationMinutes)
            && forall j :: 0 <= j < |history| && j != i ==> r.value[j] == history[j]
  {
    assert MirrorTarget(history, firstText) == Found(i);
  }

  // ---------------------------------------------------------------------
  // The screen

  class QuizSession {
    const questions: seq<Question>
    const durationMinutes: int
    const store: Storage.Store
    var currentIndex: int
    var answers: map<int, Answer>
    var timeLeft: int
    var marked: seq<int>
    var showIncompleteAlert: bool
    var showSubmitConfirm: bool

    /** A quiz is shown only with at least one question; flags are a set. */
    predicate Valid()
      reads this
    {
      |questions| > 0 && NoDup(marked)
    }

    /** The current index names a question. */
    predicate OnQuestion()
      reads this
    {
      0 <= currentIndex < |questions|
    }

    function State(): Progress
      reads this
    {
      Progress(currentIndex, answers, timeLeft, marked)
    }

    /** The first render: first question, no answers, the full time. */
    constructor (questions: seq<Question>, durationMinutes: int, store: Storage.Store)
      requires |questions| > 0
      ensures Valid() && OnQuestion()
      ensures this.questions == questions && this.durationMinutes == durationMinutes && this.store == store
      ensures State() == Progress(0, map[], durationMinutes * 60, [])
      ensures !showIncompleteAlert && !showSubmitConfirm
    {
      this.questions := questions;
      this.durationMinutes := durationMinutes;
      this.store := store;
      currentIndex := 0;
      answers := map[];
      timeLeft := durationMinutes * 60;
      marked := [];
      showIncompleteAlert := false;
      showSubmitConfirm := false;
    }

    /** The mount effect: applies a matching checkpoint. */
    method RestoreProgress()
      requires Valid()
      modifies this
      ensures Valid()
      ensures State() == RestoreFrom(old(State()), store.progress, Fingerprint(questions))
      ensures showIncompleteAlert == old(showIncompleteAlert) && showSubmitConfirm == old(showSubmitConfirm)
    {
      var saved := store.progress;
      if saved.Stored? {
        var parsed := saved.value;
        var currentIds := Fingerprint(questions);
        if parsed.quizId == currentIds {
          currentIndex := parsed.currentIndex.GetOr(0);
          answers := parsed.answers.GetOr(map[]);
          if parsed.timeLeft.Some? {
            timeLeft := parsed.timeLeft.value;
          }
          if parsed.markedForReview.Some? {
            marked := Dedup(parsed.markedForReview.value);
          }
        }
      }
    }

    /** The save effect that follows every change: the checkpoint is
        written, then the progress is mirrored into the history list unless
        that write fails (the failure is swallowed). */
    method SaveProgress(historyWriteFails: bool)
      requires Valid()
      modifies store
      ensures store.progress == Storage.Stored(CheckpointOf(Fingerprint(questions), State()))
      ensures historyWriteFails ==> store.history == old(store.history)
      ensures !historyWriteFails ==>
                store.history == Mirror(old(store.history), questions[0].questionText, State(), durationMinutes)
      ensures store.session == old(store.session) && store.userKeys == old(store.userKeys)
      ensures store.userName == old(store.userName)
    {
      store.progress := Storage.Stored(CheckpointOf(Fingerprint(questions), State()));
      var stored := store.history;
      if stored.Stored? {
        var history := stored.value;
        var target := MirrorTarget(history, questions[0].questionText);
        if target.Found? && !historyWriteFails {
          var i := target.index;
          history := history[i := MirrorEntry(history[i], State(), durationMinutes)];
          store.history := Storage.Stored(history);
        }
      }
    }

    /** The Previous button. */
    method GoPrevious()
      modifies this
      ensures currentIndex == Previous(old(currentIndex))
      ensures old(OnQuestion()) ==> OnQuestion()
      ensures answers == old(answers) && timeLeft == old(timeLeft) && marked == old(marked)
      ensures showIncompleteAlert == old(showIncompleteAlert) && showSubmitConfirm == old(showSubmitConfirm)
    {
      currentIndex := if currentIndex - 1 > 0 then currentIndex - 1 else 0;
    }

    /** The Next button. */
    method GoNext()
      modifies this
      ensures currentIndex == Next(old(currentIndex), |questions|)
      ensures old(OnQuestion()) ==> OnQuestion()
      ensures answers == old(answers) && timeLeft == old(timeLeft) && marked == old(marked)
      ensures showIncompleteAlert == old(showIncompleteAlert) && showSubmitConfirm == old(showSubmitConfirm)
    {
      currentIndex := if |questions| - 1 < currentIndex + 1 then |questions| - 1 else currentIndex + 1;
    }

    /** A sidebar entry: jumps to a listed question. */
    method JumpTo(idx: int)
      requires 0 <= idx < |questions|
      modifies this
      ensures currentIndex == idx && OnQuestion()
      ensures answers == old(answers) && timeLeft == old(timeLeft) && marked == old(marked)
      ensures showIncompleteAlert == old(showIncompleteAlert) && showSubmitConfirm == old(showSubmitConfirm)
    {
      currentIndex := idx;
    }

    /** Choosing option `k` of the current question. */
    method SelectOption(k: int)
      requires OnQuestion()
      modifies this
      ensures answers == old(answers)[questions[old(currentIndex)].id := Index(k)]
      ensures currentIndex == old(currentIndex) && timeLeft == old(timeLeft) && marked == old(marked)
      ensures showIncompleteAlert == old(showIncompleteAlert) && showSubmitConfirm == old(showSubmitConfirm)
    {
      answers := answers[questions[currentIndex].id := Index(k)];
    }

    /** Typing into the short-answer box; an empty text still sets the key. */
    method TextAnswer(text: string)
      requires OnQuestion()
      modifies this
      ensures answers == old(answers)[questions[old(currentIndex)].id := Text(text)]
      ensures questions[old(currentIndex)].id in answers
      ensures currentIndex == old(currentIndex) && timeLeft == old(timeLeft) && marked == old(marked)
      ensures showIncompleteAlert == old(showIncompleteAlert) && showSubmitConfirm == old(showSubmitConfirm)
    {
      answers := answers[questions[currentIndex].id := Text(text)];
    }

    /** Clearing the current answer removes only its key. */
    method UndoAnswer()
      requires OnQuestion()
      modifies this
      ensures answers == old(answers) - {questions[old(currentIndex)].id}
      ensures currentIndex == old(currentIndex) && timeLeft == old(timeLeft) && marked == old(marked)
      ensures showIncompleteAlert == old(showIncompleteAlert) && showSubmitConfirm == old(showSubmitConfirm)
    {
      answers := answers - {questions[currentIndex].id};
    }

    /** The review flag of the current question. */
    method ToggleReviewMark()
      requires Valid() && OnQuestion()
      modifies this
      ensures Valid()
      ensures marked == Toggle(old(marked), questions[old(currentIndex)].id)
      ensures currentIndex == old(currentIndex) && timeLeft == old(timeLeft) && answers == old(answers)
      ensures showIncompleteAlert == old(showIncompleteAlert) && showSubmitConfirm == old(showSubmitConfirm)
    {
      var id := questions[currentIndex].id;
      if id in marked {
        marked := Without(marked, id);
      } else {
        marked := marked + [id];
      }
    }

    /** The Finish button: nothing without answers, the incomplete alert
        with fewer answer keys than questions, else the confirmation. */
    method CheckCompletion()
      modifies this
      ensures |old(answers)| == 0 ==> showIncompleteAlert == old(showIncompleteAlert) && showSubmitConfirm == old(showSubmitConfirm)
      ensures 0 < |answers| < |questions| ==> showIncompleteAlert && showSubmitConfirm == old(showSubmitConfirm)
      ensures 0 < |answers| && |answers| >= |questions| ==> showSubmitConfirm && showIncompleteAlert == old(showIncompleteAlert)
      ensures State() == old(State())
    {
      var answeredCount := |answers|;
      if answeredCount == 0 {
        return;
      }
      if answeredCount < |questions| {
        showIncompleteAlert := true;
      } else {
        showSubmitConfirm := true;
      }
    }

    /** One second of the timer. */
    method Tick() returns (fired: bool)
      modifies this
      ensures (timeLeft, fired) == TickTime(old(timeLeft))
      ensures currentIndex == old(currentIndex) && answers == old(answers) && marked == old(marked)
      ensures showIncompleteAlert == old(showIncompleteAlert) && showSubmitConfirm == old(showSubmitConfirm)
    {
      if timeLeft <= 1 {
        timeLeft := 0;
        fired := true;
      } else {
        timeLeft := timeLeft - 1;
        fired := false;
      }
    }

    /** Submission: the answers and the seconds used. */
    method HandleSubmit() returns (submitted: map<int, Answer>, timeTaken: int)
      ensures submitted == answers
      ensures timeTaken + timeLeft == durationMinutes * 60
      ensures 0 <= timeLeft <= durationMinutes * 60 ==> 0 <= timeTaken <= durationMinutes * 60
    {
      submitted := answers;
      timeTaken := durationMinutes * 60 - timeLeft;
    }
  }
}
