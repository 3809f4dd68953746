/** The application shell (App.tsx): the current screen and the active
    quiz, the session snapshot kept in the store and restored on a cold
    start, the history list and every transition that edits it, and the
    sorting of generation errors into critical and ordinary ones. */
module AppShell {
  import opened QuizTypes
  import opened Strings
  import Storage
  import GeminiService
  import QuizInterface

  // The messages are written in short pieces so that the verifier can
  // inspect their characters.
  const NoQuestionsMessage: string :=
    "The AI failed " + "to generate " + "valid " + "questions. " + "Please try " + "different " + "content."
  const DefaultErrorMessage: string :=
    "Failed to " + "generate quiz. " + "Please check " + "your " + "connection and " + "try again."
  const LocalKeysLog: string := "Using Local " + "Storage APIs"
  const SystemKeysLog: string := "Using Internal " + "System APIs"

  // ---------------------------------------------------------------------
  // The session snapshot

  /** The screens whose snapshot is removed rather than written. */
  predicate NotPersisted(s: AppState) {
    s == Landing || s == Setup || s == History || s == AppState.ApiManagement || s == HowToUse || s == Generating
  }

  /** The screens reset to setup, with the resume notice, on a cold start. */
  predicate ResetOnLoad(s: AppState) {
    s == Quiz || s == Results || s == Review
  }

  /** The snapshot slot after the persist effect: removed for the listed
      screens, otherwise written, or left as it was when the write fails. */
  function Persisted(snap: Storage.Snapshot, before: Storage.Slot<Storage.Snapshot>,
                     writeFails: bool): (r: Storage.Slot<Storage.Snapshot>)
    ensures NotPersisted(snap.appState) ==> r == Storage.Absent
    ensures !NotPersisted(snap.appState) && !writeFails ==> r == Storage.Stored(snap)
    ensures !NotPersisted(snap.appState) && writeFails ==> r == before
  {
    if NotPersisted(snap.appState) then Storage.Absent
    else if writeFails then before
    else Storage.Stored(snap)
  }

  /** What the app itself leaves in the slot: nothing, or a snapshot of a
      quiz, results or review screen. */
  predicate SessionInvariant(slot: Storage.Slot<Storage.Snapshot>) {
    slot.Absent? || (slot.Stored? && ResetOnLoad(slot.value.appState))
  }

  /** Every persist keeps the invariant. */
  lemma PersistKeepsInvariant(snap: Storage.Snapshot, before: Storage.Slot<Storage.Snapshot>, writeFails: bool)
    requires SessionInvariant(before)
    ensures SessionInvariant(Persisted(snap, before, writeFails))
  {
    assert !NotPersisted(snap.appState) <==> ResetOnLoad(snap.appState);
  }

  /** The state a cold start produces. */
  datatype Boot = Boot(snap: Storage.Snapshot, notice: bool, slot: Storage.Slot<Storage.Snapshot>)

  /** The first screen before any restore. */
  function InitialSnapshot(): Storage.Snapshot {
    Storage.Snapshot(Landing, [], None, None)
  }

  /** The cold-start effect on the saved snapshot: an unreadable one is
      removed; `GENERATING` goes to setup; quiz, results and review go to
      setup with the resume notice; any other screen but the landing page
      is restored with its questions, configuration and result; a saved
      landing page leaves the initial state. */
  function ColdStart(saved: Storage.Slot<Storage.Snapshot>): (b: Boot)
    ensures saved.Corrupt? ==> b == Boot(InitialSnapshot(), false, Storage.Absent)
    ensures saved.Absent? ==> b == Boot(InitialSnapshot(), false, saved)
    ensures saved.Stored? ==> b.slot == saved
    ensures saved.Stored? && saved.value.appState == Generating ==>
              b == Boot(InitialSnapshot().(appState := Setup), false, saved)
    ensures saved.Stored? && ResetOnLoad(saved.value.appState) ==>
              b == Boot(InitialSnapshot().(appState := Setup), true, saved)
    ensures saved.Stored? && !ResetOnLoad(saved.value.appState) && saved.value.appState != Generating
            && saved.value.appState != Landing ==>
              b == Boot(saved.value, false, saved)
    ensures saved.Stored? && saved.value.appState == Landing ==> b == Boot(InitialSnapshot(), false, saved)
    ensures b.snap.appState != Generating && !ResetOnLoad(b.snap.appState)
  {
    var init := InitialSnapshot();
    match saved
    case Absent => Boot(init, false, saved)
    case Corrupt => Boot(init, false, Storage.Absent)
    case Stored(p) =>
      if p.appState == Generating then Boot(init.(appState := Setup), false, saved)
      else if ResetOnLoad(p.appState) then Boot(init.(appState := Setup), true, saved)
      else if p.appState != Landing then
        Boot(Storage.Snapshot(p.appState, p.questions,
                              if p.config.Some? then p.config else init.config,
                              if p.result.Some? then p.result else init.result), false, saved)
      else Boot(init, false, saved)
  }

  /** After a reload, a snapshot the app wrote itself always leads to the
      setup screen with the resume notice, and no snapshot to the landing
      page. */
  lemma ReloadAfterPersist(slot: Storage.Slot<Storage.Snapshot>)
    requires SessionInvariant(slot)
    ensures slot.Stored? ==> ColdStart(slot).snap.appState == Setup && ColdStart(slot).notice
    ensures slot.Absent? ==> ColdStart(slot).snap.appState == Landing && !ColdStart(slot).notice
  {
  }

  // ---------------------------------------------------------------------
  // The history list

  /** The index of the first entry with this id. */
  function FirstIndexById(h: seq<QuizResult>, id: string): (r: Option<nat>)
    ensures r.Some? ==> r.value < |h| && h[r.value].id == id
    ensures r.Some? ==> forall j :: 0 <= j < r.value ==> h[j].id != id
    ensures r.None? <==> forall j :: 0 <= j < |h| ==> h[j].id != id
  {
    if h == [] then None
    else if h[0].id == id then Some(0)
    else
      match FirstIndexById(h[1..], id)
      case Some(i) => Some(i + 1)
      case None => None
  }

  /** `updateHistory`'s list: the first entry with the same id is replaced
      in place, or the entry is appended when there is none. */
  function Upserted(h: seq<QuizResult>, r: QuizResult): (u: seq<QuizResult>)
    ensures FirstIndexById(h, r.id).Some? ==>
              var i := FirstIndexById(h, r.id).value;
              && |u| == |h| && u[i] == r
              && forall j :: 0 <= j < |h| && j != i ==> u[j] == h[j]
    ensures FirstIndexById(h, r.id).None? ==> u == h + [r]
  {
    match FirstIndexById(h, r.id)
    case Some(i) => h[i := r]
    case None => h + [r]
  }

  predicate UniqueIds(h: seq<QuizResult>) {
    forall i, j :: 0 <= i < j < |h| ==> h[i].id != h[j].id
  }

  /** Upserting the same id again replaces, and never adds an entry. */
  lemma UpsertSameIdAgain(h: seq<QuizResult>, r1: QuizResult, r2: QuizResult)
    requires r1.id == r2.id
    ensures |Upserted(Upserted(h, r1), r2)| == |Upserted(h, r1)|
    ensures Upserted(Upserted(h, r1), r2) == Upserted(h, r2)
  {
    var u := Upserted(h, r1);
    match FirstIndexById(h, r1.id)
    case Some(i) =>
      assert FirstIndexById(u, r1.id) == Some(i) by {
        forall j | 0 <= j < i ensures u[j].id != r1.id {
        }
      }
    case None =>
      assert u[|h|] == r1;
      assert FirstIndexById(u, r1.id) == Some(|h|) by {
        forall j | 0 <= j < |h| ensures u[j].id != r1.id {
          assert u[j] == h[j];
        }
      }
      assert u[|h| := r2] == h + [r2];
  }

  /** Upserting keeps ids unique. */
  lemma UpsertKeepsIdsUnique(h: seq<QuizResult>, r: QuizResult)
    requires UniqueIds(h)
    ensures UniqueIds(Upserted(h, r))
  {
  }

  /** `history.filter(h => h.id !== id)`: the other entries, in order. */
  function WithoutId(h: seq<QuizResult>, id: string): (r: seq<QuizResult>)
    ensures |r| <= |h|
    ensures forall x :: x in r <==> x in h && x.id != id
    ensures (forall j :: 0 <= j < |h| ==> h[j].id != id) ==> r == h
  {
    if h == [] then []
    else
      var rest := WithoutId(h[1..], id);
      assert forall x :: x in h <==> x == h[0] || x in h[1..];
      if h[0].id == id then rest else [h[0]] + rest
  }

  /** The filter works piece by piece, so the kept entries keep their
      relative order. */
  lemma {:induction false} WithoutIdConcat(a: seq<QuizResult>, b: seq<QuizResult>, id: string)
    ensures WithoutId(a + b, id) == WithoutId(a, id) + WithoutId(b, id)
  {
    if a == [] {
      assert a + b == b;
    } else {
      assert (a + b)[1..] == a[1..] + b;
      WithoutIdConcat(a[1..], b, id);
    }
  }

  /** The history slot after `updateHistory`: an unreadable list is left
      alone (the exception is caught), a missing one starts empty, and a
      failing write changes nothing. */
  function UpdatedHistory(slot: Storage.Slot<seq<QuizResult>>, r: QuizResult,
                          writeFails: bool): (s: Storage.Slot<seq<QuizResult>>)
    ensures slot.Corrupt? || writeFails ==> s == slot
    ensures !slot.Corrupt? && !writeFails ==> s == Storage.Stored(Upserted(GetHistory(slot), r))
  {
    if slot.Corrupt? || writeFails then slot
    else Storage.Stored(Upserted(GetHistory(slot), r))
  }

  /** `JSON.parse(localStorage.getItem('quiz_history') || '[]')` on a
      readable slot. */
  function GetHistory(slot: Storage.Slot<seq<QuizResult>>): seq<QuizResult> {
    if slot.Stored? then slot.value else []
  }

  // ---------------------------------------------------------------------
  // Generation errors and titles

  /** `data.title || newConfig.topic || "Generated Assessment"` */
  function FinalTitle(dataTitle: string, topic: string): (t: string)
    ensures t != ""
    ensures dataTitle != "" ==> t == dataTitle
    ensures dataTitle == "" && topic != "" ==> t == topic
  {
    if dataTitle != "" then dataTitle else if topic != "" then topic else "Generated Assessment"
  }

  /** How a failed start is reported. */
  datatype Report = Critical(logs: string) | Ordinary(message: string)

  /** A message holding the marker is critical and shows the text between
      the first and second marker; any other message is shown as it is, or
      the default text when empty. */
  function Classify(msg: string): (r: Report)
    ensures r.Critical? <==> Contains(msg, GeminiService.CriticalMarker)
    ensures r.Ordinary? ==> r.message == if msg == "" then DefaultErrorMessage else msg
  {
    if Contains(msg, GeminiService.CriticalMarker) then
      var pieces := Split(msg, GeminiService.CriticalMarker);
      assert |pieces| >= 2 by {
        JoinSplit(msg, GeminiService.CriticalMarker);
      }
      Critical(pieces[1])
    else Ordinary(if msg == "" then DefaultErrorMessage else msg)
  }

  /** The critical report of the failover loop shows exactly its log lines,
      provided no failure message itself carries the marker. */
  lemma CriticalReportShowsLogs(logs: seq<string>)
    requires !Contains(Join(logs, "\n"), GeminiService.CriticalMarker)
    ensures Classify(GeminiService.CriticalMarker + Join(logs, "\n")) == Critical(Join(logs, "\n"))
  {
    var body := Join(logs, "\n");
    var msg := GeminiService.CriticalMarker + body;
    assert OccursAt(msg, GeminiService.CriticalMarker, 0) by {
      assert msg[0..|GeminiService.CriticalMarker|] == GeminiService.CriticalMarker;
    }
    SplitLeading(GeminiService.CriticalMarker, body);
    SplitNotContained(body, GeminiService.CriticalMarker);
  }

  /** When every usable key has failed, the app shows the failover loop's
      own log lines in the critical report. */
  lemma FailoverReportIsCritical(a: seq<GeminiService.Attempt>)
    requires |a| > 0 && GeminiService.Generate(a).outcome.Failed?
    requires !Contains(Join(GeminiService.Generate(a).logs, "\n"), GeminiService.CriticalMarker)
    ensures Classify(GeminiService.Generate(a).outcome.message) == Critical(Join(GeminiService.Generate(a).logs, "\n"))
  {
    CriticalReportShowsLogs(GeminiService.Generate(a).logs);
  }

  /** The no-keys error and the empty-quiz error are ordinary errors. */
  lemma ServiceErrorsAreOrdinary()
    ensures Classify(GeminiService.NoKeysMessage) == Ordinary(GeminiService.NoKeysMessage)
    ensures Classify(NoQuestionsMessage) == Ordinary(NoQuestionsMessage)
  {
    GeminiService.NoKeysFailsFast();
    assert 'C' !in NoQuestionsMessage;
    NotContainsWithoutFirstChar(NoQuestionsMessage, GeminiService.CriticalMarker);
  }

  /** The attempt recorded when a quiz starts. */
  function InitialAttempt(id: string, title: string, timestamp: int, questions: seq<Question>): (r: QuizResult)
    ensures r.status == InProgress && r.userAnswers == map[] && r.timeTakenSeconds == 0
    ensures r.currentIndex == Some(0) && r.questions == questions && r.id == id && r.title == title
  {
    QuizResult(id, title, timestamp, InProgress, questions, map[], 0, Some(0), None)
  }

  /** The attempt after completion: status, answers, time and index are
      replaced, everything else is kept. */
  function CompletedAttempt(r: QuizResult, userAnswers: map<int, Answer>, timeTaken: int): (c: QuizResult)
    ensures c.status == QuizStatus.Completed && c.userAnswers == userAnswers
    ensures c.timeTakenSeconds == timeTaken && c.currentIndex == Some(0)
    ensures c.id == r.id && c.title == r.title && c.timestamp == r.timestamp && c.questions == r.questions
    ensures c.markedForReview == r.markedForReview
  {
    r.(status := QuizStatus.Completed, userAnswers := userAnswers, timeTakenSeconds := timeTaken,
       currentIndex := Some(0))
  }

  // ---------------------------------------------------------------------
  // Resuming from history

  const ResumeSeconds: int := 900
  const ResumeMinutes: int := 15

  /** The checkpoint written when an in-progress attempt is resumed: the
      attempt's fingerprint, index, answers and flags, and 900 seconds less
      the time already taken. */
  function ResumeCheckpoint(r: QuizResult): (cp: Storage.Checkpoint)
    ensures cp.quizId == QuizInterface.Fingerprint(r.questions)
    ensures cp.timeLeft == Some(ResumeSeconds - r.timeTakenSeconds)
  {
    Storage.Checkpoint(QuizInterface.Fingerprint(r.questions), Some(r.currentIndex.GetOr(0)),
                       Some(r.userAnswers), Some(ResumeSeconds - r.timeTakenSeconds),
                       Some(r.markedForReview.GetOr([])))
  }

  /** The fixed configuration of a resumed (15 minutes) or reviewed (0
      minutes) attempt. */
  function ResumeConfig(r: QuizResult): (c: QuizConfig)
    ensures c.topic == r.title && c.questionCount == |r.questions|
    ensures c.durationMinutes == if r.status == InProgress then ResumeMinutes else 0
  {
    if r.status == InProgress then
      QuizConfig("Resuming Candidate", r.title, |r.questions|, ResumeMinutes, Medium, MultipleChoice, "", [])
    else
      QuizConfig("History Review", r.title, |r.questions|, 0, Medium, MultipleChoice, "", [])
  }

  /** Resuming brings back the attempt's answers, index and flags, and a
      quiz screen that starts from 15 minutes restores 900 seconds less the
      time taken. */
  lemma ResumeRestores(r: QuizResult)
    requires r.status == InProgress
    ensures var p := QuizInterface.RestoreFrom(
                       QuizInterface.Progress(0, map[], ResumeMinutes * 60, []),
                       Storage.Stored(ResumeCheckpoint(r)), QuizInterface.Fingerprint(r.questions));
            && p.currentIndex == r.currentIndex.GetOr(0)
            && p.answers == r.userAnswers
            && p.timeLeft == ResumeSeconds - r.timeTakenSeconds
            && (forall x :: x in p.marked <==> x in r.markedForReview.GetOr([]))
  {
  }

  /** Saving progress `p` from a quiz of `d` minutes into the history and
      resuming it later restores everything but the clock, which gains the
      difference between 15 minutes and `d`. */
  lemma MirrorThenResume(h: QuizResult, p: QuizInterface.Progress, d: int)
    requires h.status == InProgress && QuizInterface.NoDup(p.marked)
    ensures var m := QuizInterface.MirrorEntry(h, p, d);
            QuizInterface.RestoreFrom(QuizInterface.Progress(0, map[], ResumeMinutes * 60, []),
                                      Storage.Stored(ResumeCheckpoint(m)), QuizInterface.Fingerprint(m.questions))
            == p.(timeLeft := p.timeLeft + ResumeSeconds - d * 60)
  {
    QuizInterface.DedupOfDistinct(p.marked);
  }

  // ---------------------------------------------------------------------
  // Screen changes wired directly to buttons

  /** The transitions the screens request without further logic. */
  predicate Wired(from: AppState, to: AppState) {
    || (from == Landing && (to == Setup || to == AppState.ApiManagement || to == HowToUse))
    || (from == AppState.ApiManagement && (to == Setup || to == Landing || to == HowToUse))
    || (from == HowToUse && (to == Landing || to == AppState.ApiManagement || to == Setup))
    || (from == Setup && (to == History || to == AppState.ApiManagement || to == HowToUse))
    || (from == History && to == Setup)
    || (from == Results && to == Review)
    || (from == Review && to == Results)
  }

  /** No button alone starts or generates a quiz: the quiz screen is only
      reached through generation, resuming or reattempting. */
  lemma WiredNeverStartsQuiz(from: AppState, to: AppState)
    requires Wired(from, to)
    ensures to != Quiz && to != Generating
  {
  }

  // ---------------------------------------------------------------------
  // The application

  class App {
    var appState: AppState
    var config: Option<QuizConfig>
    var questions: seq<Question>
    var result: Option<QuizResult>
    var error: Option<string>
    var resumeNotification: bool
    var apiSourceLog: string
    var criticalErrorLogs: Option<string>
    const store: Storage.Store

    /** The part of the state the snapshot holds. */
    function Snap(): Storage.Snapshot
      reads this
    {
      Storage.Snapshot(appState, questions, config, result)
    }

    /** The first render. */
    constructor (store: Storage.Store)
      ensures Snap() == InitialSnapshot() && this.store == store
      ensures error.None? && !resumeNotification && apiSourceLog == "" && criticalErrorLogs.None?
    {
      appState := Landing;
      config := None;
      questions := [];
      result := None;
      error := None;
      resumeNotification := false;
      apiSourceLog := "";
      criticalErrorLogs := None;
      this.store := store;
    }

    /** The mount effect that restores the saved session. */
    method RestoreSession()
      requires Snap() == InitialSnapshot() && !resumeNotification
      modifies this, store
      ensures var b := ColdStart(old(store.session));
              Snap() == b.snap && resumeNotification == b.notice && store.session == b.slot
      ensures error == old(error) && criticalErrorLogs == old(criticalErrorLogs)
      ensures store.history == old(store.history) && store.progress == old(store.progress)
      ensures store.userKeys == old(store.userKeys) && store.userName == old(store.userName)
      ensures apiSourceLog == old(apiSourceLog)
    {
      match store.session {
        case Absent =>
        case Corrupt =>
          store.session := Storage.Absent;
        case Stored(parsed) =>
          if parsed.appState == Generating {
            appState := Setup;
            return;
          }
          if ResetOnLoad(parsed.appState) {
            appState := Setup;
            resumeNotification := true;
          } else if parsed.appState != Landing {
            questions := parsed.questions;
            if parsed.config.Some? {
              config := parsed.config;
            }
            if parsed.result.Some? {
              result := parsed.result;
            }
            appState := parsed.appState;
          }
      }
    }

    /** The effect that runs after every change of screen or quiz. */
    method PersistSession(writeFails: bool)
      modifies store
      ensures store.session == Persisted(Snap(), old(store.session), writeFails)
      ensures store.history == old(store.history) && store.progress == old(store.progress)
      ensures store.userKeys == old(store.userKeys) && store.userName == old(store.userName)
    {
      if NotPersisted(appState) {
        store.session := Storage.Absent;
        return;
      }
      if !writeFails {
        store.session := Storage.Stored(Snap());
      }
    }

    /** `updateHistory` */
    method UpdateHistory(newResult: QuizResult, writeFails: bool)
      modifies store
      ensures store.history == UpdatedHistory(old(store.history), newResult, writeFails)
      ensures store.session == old(store.session) && store.progress == old(store.progress)
      ensures store.userKeys == old(store.userKeys) && store.userName == old(store.userName)
    {
      if store.history.Corrupt? {
        return;
      }
      var history := GetHistory(store.history);
      var index := FirstIndexById(history, newResult.id);
      if index.Some? {
        history := history[index.value := newResult];
      } else {
        history := history + [newResult];
      }
      if !writeFails {
        store.history := Storage.Stored(history);
      }
    }

    /** The synchronous start of `startQuiz`: the key-source notice, then
        the generating screen with errors cleared. */
    method BeginGeneration(newConfig: QuizConfig)
      modifies this
      ensures config == Some(newConfig) && appState == Generating
      ensures error.None? && criticalErrorLogs.None?
      ensures apiSourceLog == if store.userKeys.Stored? && |store.userKeys.value| > 0 then LocalKeysLog else SystemKeysLog
      ensures questions == old(questions) && result == old(result) && resumeNotification == old(resumeNotification)
    {
      config := Some(newConfig);
      var hasLocalKeys := store.userKeys.Stored? && |store.userKeys.value| > 0;
      apiSourceLog := if hasLocalKeys then LocalKeysLog else SystemKeysLog;
      appState := Generating;
      error := None;
      criticalErrorLogs := None;
    }

    /** The rest of `startQuiz`, once the service has answered: a quiz with
        questions is recorded and started; otherwise the error is reported
        and the setup screen shown again. */
    method FinishGeneration(newConfig: QuizConfig, outcome: GeminiService.Generation,
                            quizId: string, now: int, historyWriteFails: bool)
      requires config == Some(newConfig)
      modifies this, store
      ensures outcome.Generated? && |outcome.data.questions| > 0 ==>
                var title := FinalTitle(outcome.data.title, newConfig.topic);
                var attempt := InitialAttempt(quizId, title, now, outcome.data.questions);
                && appState == Quiz && questions == outcome.data.questions
                && config == Some(newConfig.(topic := title)) && result == Some(attempt)
                && store.history == UpdatedHistory(old(store.history), attempt, historyWriteFails)
                && error == old(error) && criticalErrorLogs == old(criticalErrorLogs)
      ensures !(outcome.Generated? && |outcome.data.questions| > 0) ==>
                var report := Classify(if outcome.Failed? then outcome.message else NoQuestionsMessage);
                && appState == Setup && questions == old(questions) && result == old(result)
                && config == old(config) && store.history == old(store.history)
                && (report.Critical? ==> criticalErrorLogs == Some(report.logs) && error == old(error))
                && (report.Ordinary? ==> error == Some(report.message) && criticalErrorLogs == old(criticalErrorLogs))
      ensures store.session == old(store.session) && store.progress == old(store.progress)
      ensures store.userKeys == old(store.userKeys) && store.userName == old(store.userName)
      ensures resumeNotification == old(resumeNotification) && apiSourceLog == old(apiSourceLog)
    {
      var msg;
      match outcome {
        case Generated(data) =>
          if |data.questions| > 0 {
            var finalTitle := FinalTitle(data.title, newConfig.topic);
            config := Some(config.value.(topic := finalTitle));
            questions := data.questions;
            var initialResult := InitialAttempt(quizId, finalTitle, now, data.questions);
            result := Some(initialResult);
            UpdateHistory(initialResult, historyWriteFails);
            appState := Quiz;
            return;
          }
          msg := NoQuestionsMessage;
        case Failed(m) =>
          msg := m;
      }
      match Classify(msg) {
        case Critical(logs) =>
          criticalErrorLogs := Some(logs);
        case Ordinary(message) =>
          error := Some(message);
      }
      appState := Setup;
    }

    /** `handleQuizComplete`: without an active quiz nothing happens;
        otherwise the attempt is completed, upserted by id, the checkpoint
        removed and the results shown. */
    method HandleQuizComplete(userAnswers: map<int, Answer>, timeTaken: int, historyWriteFails: bool)
      modifies this, store
      ensures old(config.None? || result.None?) ==>
                Snap() == old(Snap()) && store.history == old(store.history) && store.progress == old(store.progress)
      ensures old(config.Some? && result.Some?) ==>
                var done := CompletedAttempt(old(result.value), userAnswers, timeTaken);
                && result == Some(done) && appState == Results
                && questions == old(questions) && config == old(config)
                && store.history == UpdatedHistory(old(store.history), done, historyWriteFails)
                && store.progress == Storage.Absent
      ensures store.session == old(store.session) && store.userKeys == old(store.userKeys)
      ensures store.userName == old(store.userName)
      ensures error == old(error) && criticalErrorLogs == old(criticalErrorLogs)
      ensures resumeNotification == old(resumeNotification) && apiSourceLog == old(apiSourceLog)
    {
      if config.None? || result.None? {
        return;
      }
      var completedResult := CompletedAttempt(result.value, userAnswers, timeTaken);
      result := Some(completedResult);
      appState := Results;
      UpdateHistory(completedResult, historyWriteFails);
      store.progress := Storage.Absent;
    }

    /** `resetApp`: the setup screen with no active quiz, and neither a
        snapshot nor a checkpoint. */
    method ResetApp()
      modifies this, store
      ensures Snap() == Storage.Snapshot(Setup, [], None, None) && error.None?
      ensures store.session == Storage.Absent && store.progress == Storage.Absent
      ensures store.history == old(store.history) && store.userKeys == old(store.userKeys)
      ensures store.userName == old(store.userName)
      ensures criticalErrorLogs == old(criticalErrorLogs) && resumeNotification == old(resumeNotification)
      ensures apiSourceLog == old(apiSourceLog)
    {
      appState := Setup;
      config := None;
      questions := [];
      result := None;
      error := None;
      store.session := Storage.Absent;
      store.progress := Storage.Absent;
    }

    /** `handleBackToLanding` */
    method HandleBackToLanding()
      modifies this, store
      ensures Snap() == InitialSnapshot() && error.None?
      ensures store.session == Storage.Absent && store.progress == Storage.Absent
      ensures store.history == old(store.history) && store.userKeys == old(store.userKeys)
      ensures store.userName == old(store.userName)
      ensures criticalErrorLogs == old(criticalErrorLogs)
      ensures resumeNotification == old(resumeNotification) && apiSourceLog == old(apiSourceLog)
    {
      ResetApp();
      appState := Landing;
    }

    /** `handleQuizExit`: discarding removes every history entry of the
        active attempt (an unreadable list or a failing write is ignored);
        saving keeps the history. Both then reset. */
    method HandleQuizExit(shouldSave: bool, historyWriteFails: bool)
      modifies this, store
      ensures !shouldSave && old(result).Some? && !old(store.history).Corrupt? && !historyWriteFails ==>
                store.history == Storage.Stored(WithoutId(GetHistory(old(store.history)), old(result).value.id))
      ensures shouldSave || old(result).None? || old(store.history).Corrupt? || historyWriteFails ==>
                store.history == old(store.history)
      ensures Snap() == Storage.Snapshot(Setup, [], None, None) && error.None?
      ensures store.session == Storage.Absent && store.progress == Storage.Absent
      ensures store.userKeys == old(store.userKeys) && store.userName == old(store.userName)
      ensures criticalErrorLogs == old(criticalErrorLogs)
      ensures resumeNotification == old(resumeNotification) && apiSourceLog == old(apiSourceLog)
    {
      if !shouldSave && result.Some? {
        if !store.history.Corrupt? {
          var history := GetHistory(store.history);
          var newHistory := WithoutId(history, result.value.id);
          if !historyWriteFails {
            store.history := Storage.Stored(newHistory);
          }
        }
      }
      ResetApp();
    }

    /** `clearHistory` */
    method ClearHistory()
      modifies this, store
      ensures store.history == Storage.Absent && appState == Setup
      ensures questions == old(questions) && config == old(config) && result == old(result)
      ensures store.session == old(store.session) && store.progress == old(store.progress)
      ensures store.userKeys == old(store.userKeys) && store.userName == old(store.userName)
      ensures error == old(error) && criticalErrorLogs == old(criticalErrorLogs)
      ensures resumeNotification == old(resumeNotification) && apiSourceLog == old(apiSourceLog)
    {
      store.history := Storage.Absent;
      appState := Setup;
    }

    /** `handleDeleteHistoryItem`: removes every entry with the id and shows
        the history; when the list is unreadable or the write fails, nothing
        changes at all. */
    method HandleDeleteHistoryItem(id: string, writeFails: bool)
      modifies this, store
      ensures old(store.history).Corrupt? || writeFails ==>
                store.history == old(store.history) && appState == old(appState)
      ensures !old(store.history).Corrupt? && !writeFails ==>
                store.history == Storage.Stored(WithoutId(GetHistory(old(store.history)), id))
                && appState == History
      ensures questions == old(questions) && config == old(config) && result == old(result)
      ensures store.session == old(store.session) && store.progress == old(store.progress)
      ensures store.userKeys == old(store.userKeys) && store.userName == old(store.userName)
      ensures error == old(error) && criticalErrorLogs == old(criticalErrorLogs)
      ensures resumeNotification == old(resumeNotification) && apiSourceLog == old(apiSourceLog)
    {
      if store.history.Corrupt? {
        return;
      }
      var history := GetHistory(store.history);
      var newHistory := WithoutId(history, id);
      if writeFails {
        return;
      }
      store.history := Storage.Stored(newHistory);
      appState := History;
    }

    /** `handleResumeQuiz`: an in-progress attempt is reopened in the quiz
        screen from a checkpoint built from it; a completed one opens the
        results. */
    method HandleResumeQuiz(selected: QuizResult)
      modifies this, store
      ensures result == Some(selected) && questions == selected.questions
      ensures config == Some(ResumeConfig(selected))
      ensures selected.status == InProgress ==>
                appState == Quiz && store.progress == Storage.Stored(ResumeCheckpoint(selected))
      ensures selected.status != InProgress ==>
                appState == Results && store.progress == old(store.progress)
      ensures store.session == old(store.session) && store.history == old(store.history)
      ensures store.userKeys == old(store.userKeys) && store.userName == old(store.userName)
      ensures error == old(error) && criticalErrorLogs == old(criticalErrorLogs)
      ensures resumeNotification == old(resumeNotification) && apiSourceLog == old(apiSourceLog)
    {
      result := Some(selected);
      questions := selected.questions;
      config := Some(ResumeConfig(selected));
      if selected.status == InProgress {
        store.progress := Storage.Stored(ResumeCheckpoint(selected));
        appState := Quiz;
      } else {
        appState := Results;
      }
    }

    /** `handleReattempt`: with questions, a new in-progress attempt with a
        fresh id and the same questions is recorded and started, and the old
        checkpoint dropped. */
    method HandleReattempt(newId: string, now: int, historyWriteFails: bool)
      modifies this, store
      ensures old(questions) == [] ==>
                Snap() == old(Snap()) && store.history == old(store.history) && store.progress == old(store.progress)
      ensures old(questions) != [] ==>
                var title := if old(result).Some? && old(result).value.title != "" then old(result).value.title
                             else if old(config).Some? && old(config).value.topic != "" then old(config).value.topic
                             else "Assessment";
                var attempt := InitialAttempt(newId, title, now, old(questions));
                && result == Some(attempt) && appState == Quiz && questions == old(questions)
                && store.history == UpdatedHistory(old(store.history), attempt, historyWriteFails)
                && store.progress == Storage.Absent
      ensures config == old(config)
      ensures store.session == old(store.session) && store.userKeys == old(store.userKeys)
      ensures store.userName == old(store.userName)
      ensures error == old(error) && criticalErrorLogs == old(criticalErrorLogs)
      ensures resumeNotification == old(resumeNotification) && apiSourceLog == old(apiSourceLog)
    {
      if |questions| == 0 {
        return;
      }
      var title := if result.Some? && result.value.title != "" then result.value.title
                   else if config.Some? && config.value.topic != "" then config.value.topic
                   else "Assessment";
      var initialResult := InitialAttempt(newId, title, now, questions);
      result := Some(initialResult);
      UpdateHistory(initialResult, historyWriteFails);
      store.progress := Storage.Absent;
      appState := Quiz;
    }

    /** The resume notice's close button. */
    method DismissNotification()
      modifies this
      ensures !resumeNotification && Snap() == old(Snap())
      ensures error == old(error) && criticalErrorLogs == old(criticalErrorLogs)
      ensures apiSourceLog == old(apiSourceLog)
    {
      resumeNotification := false;
    }

    /** A button that only changes the screen. */
    method Navigate(to: AppState)
      requires Wired(appState, to)
      modifies this
      ensures appState == to
      ensures questions == old(questions) && config == old(config) && result == old(result)
      ensures error == old(error) && criticalErrorLogs == old(criticalErrorLogs)
      ensures resumeNotification == old(resumeNotification) && apiSourceLog == old(apiSourceLog)
    {
      appState := to;
    }
  }

  /** A reattempt with a fresh id keeps the original attempt and adds one
      entry at the end. */
  lemma ReattemptKeepsOriginal(h: seq<QuizResult>, attempt: QuizResult)
    requires forall j :: 0 <= j < |h| ==> h[j].id != attempt.id
    ensures Upserted(h, attempt) == h + [attempt]
  {
  }

  /** Completing the same attempt twice leaves one history entry for it. */
  lemma CompleteTwiceOneEntry(h: seq<QuizResult>, r: QuizResult, a1: map<int, Answer>, t1: int,
                              a2: map<int, Answer>, t2: int)
    ensures var c1 := CompletedAttempt(r, a1, t1);
            var c2 := CompletedAttempt(c1, a2, t2);
            |Upserted(Upserted(h, c1), c2)| == |Upserted(h, c1)|
  {
    UpsertSameIdAgain(h, CompletedAttempt(r, a1, t1), CompletedAttempt(CompletedAttempt(r, a1, t1), a2, t2));
  }
}
