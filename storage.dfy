/** The browser's `localStorage` as seen by the quiz client: one slot per
    key, holding nothing, a value of the shape the client wrote, or text the
    client cannot parse as that shape (`JSON.parse` throws or yields the
    wrong kind of value). JSON encoding itself is not modelled. */
module Storage {
  import opened QuizTypes

  datatype Slot<T> = Absent | Stored(value: T) | Corrupt

  /** The `quiz_session` entry: the screen and the active quiz. */
  datatype Snapshot = Snapshot(
    appState: AppState,
    questions: seq<Question>,
    config: Option<QuizConfig>,
    result: Option<QuizResult>)

  /** The `quiz_progress` entry: the in-quiz checkpoint, keyed by the
      fingerprint `quizId` of the question list it belongs to. */
  datatype Checkpoint = Checkpoint(
    quizId: string,
    currentIndex: Option<int>,
    answers: Option<map<int, Answer>>,
    timeLeft: Option<int>,
    markedForReview: Option<seq<int>>)

  /** The store, shared by every component that reads or writes it. */
  class Store {
    var session: Slot<Snapshot>               // 'quiz_session'
    var progress: Slot<Checkpoint>            // 'quiz_progress'
    var history: Slot<seq<QuizResult>>        // 'quiz_history'
    var userKeys: Slot<seq<string>>           // 'user_gemini_keys'
    var userName: Option<string>              // 'quiz_username'

    /** A store with whatever a previous page load left behind. */
    constructor (session: Slot<Snapshot>, progress: Slot<Checkpoint>, history: Slot<seq<QuizResult>>,
                 userKeys: Slot<seq<string>>, userName: Option<string>)
      ensures this.session == session && this.progress == progress && this.history == history
      ensures this.userKeys == userKeys && this.userName == userName
    {
      this.session := session;
      this.progress := progress;
      this.history := history;
      this.userKeys := userKeys;
      this.userName := userName;
    }
  }
}
