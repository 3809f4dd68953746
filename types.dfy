/** The value types of the quiz client (types.ts). Optional properties
    become `Option`; an answer is either an option index or free text. */
module QuizTypes {

  datatype Option<T> = None | Some(value: T) {
    /** `x || d` / `x ?? d` for an optional value */
    function GetOr(default: T): T {
      match this
      case Some(v) => v
      case None => default
    }
  }

  datatype Difficulty = Easy | Medium | Hard

  datatype QuizType = MultipleChoice | TrueFalse

  /** One attachment: the file's data URL (or base64 text) and its MIME type. */
  datatype FileUpload = FileUpload(data: string, mimeType: string)

  /** The settings of one generation request. An empty `topic` stands for an
      absent one (the form always sends a string, possibly empty). */
  datatype QuizConfig = QuizConfig(
    userName: string,
    topic: string,
    questionCount: int,
    durationMinutes: int,
    difficulty: Difficulty,
    quizType: QuizType,
    content: string,
    fileUploads: seq<FileUpload>)

  /** A question: `options` is empty for a short-answer question, which is
      then judged against `answer`; otherwise `correctOptionIndex` applies. */
  datatype Question = Question(
    id: int,
    questionText: string,
    options: seq<string>,
    correctOptionIndex: Option<int>,
    answer: Option<string>,
    explanation: string)

  /** A user's answer: the index of a chosen option, or typed text. */
  datatype Answer = Index(i: int) | Text(s: string)

  datatype QuizStatus = InProgress | Completed

  /** One attempt as kept in the history list. */
  datatype QuizResult = QuizResult(
    id: string,
    title: string,
    timestamp: int,
    status: QuizStatus,
    questions: seq<Question>,
    userAnswers: map<int, Answer>,
    timeTakenSeconds: int,
    currentIndex: Option<int>,
    markedForReview: Option<seq<int>>)

  /** The screens of the application. */
  datatype AppState =
    | Landing | ApiManagement | HowToUse | Setup | Generating
    | Quiz | Results | Review | History

  datatype GeneratedQuizData = GeneratedQuizData(title: string, questions: seq<Question>)

  /** The ids of a question list, in order. */
  function Ids(qs: seq<Question>): (ids: seq<int>)
    ensures |ids| == |qs|
    ensures forall i :: 0 <= i < |qs| ==> ids[i] == qs[i].id
  {
    seq(|qs|, i requires 0 <= i < |qs| => qs[i].id)
  }
}
