/** The setup form (components/SetupForm.tsx): the attachment list with its
    five-file limit and per-file read status, the sliders, and the checks
    that decide whether a quiz configuration is handed to the app. */
module SetupForm {
  import opened QuizTypes
  import opened Strings
  import Storage

  const MaxFiles: nat := 5
  const MinQuestions: int := 3
  const MaxQuestions: int := 50
  const MinMinutes: int := 1
  const MaxMinutes: int := 180

  /** The question-count slider's values. */
  type QuestionCount = n: int | MinQuestions <= n <= MaxQuestions witness 10

  /** The time slider's values, in minutes. */
  type SliderMinutes = n: int | MinMinutes <= n <= MaxMinutes witness 15

  const TooManyFilesMessage: string := "Maximum 5 files allowed."
  const NoMaterialMessage: string := "Please provide material."
  const NameRequiredMessage: string := "Name required."
  const FallbackMimeType: string := "application/octet-stream"

  datatype FileStatus = Loading | Loaded | Failed

  /** One attachment: a random id, its data URL once read, its type and
      name, and the state of its read. */
  datatype FileItem = FileItem(id: string, data: string, mimeType: string, status: FileStatus, name: string)

  /** A file picked by the user; an empty `mimeType` is an unknown type. */
  datatype PickedFile = PickedFile(name: string, mimeType: string)

  /** The items created for a batch of picked files: nothing read yet. */
  function NewItems(files: seq<PickedFile>, ids: seq<string>): (items: seq<FileItem>)
    requires |ids| == |files|
    ensures |items| == |files|
    ensures forall i :: 0 <= i < |items| ==>
              && items[i].id == ids[i] && items[i].status == Loading && items[i].name == files[i].name
              && items[i].mimeType == (if files[i].mimeType != "" then files[i].mimeType else FallbackMimeType)
  {
    seq(|files|, i requires 0 <= i < |files| =>
      FileItem(ids[i], "", if files[i].mimeType != "" then files[i].mimeType else FallbackMimeType,
               Loading, files[i].name))
  }

  /** `fileItems.some(f => f.status === 'loading')` */
  predicate AnyLoading(items: seq<FileItem>) {
    exists i :: 0 <= i < |items| && items[i].status == Loading
  }

  /** The attachment a read file contributes to the configuration. */
  function Upload(it: FileItem): FileUpload {
    FileUpload(it.data, it.mimeType)
  }

  /** The attachments sent with the quiz: the successfully read files, in
      order. */
  function ValidFiles(items: seq<FileItem>): (r: seq<FileUpload>)
    ensures |r| <= |items|
  {
    if items == [] then []
    else if items[0].status == Loaded then [Upload(items[0])] + ValidFiles(items[1..])
    else ValidFiles(items[1..])
  }

  /** The attachments sent are exactly the uploads of the read files, and
      there are none exactly when no file has been read. */
  lemma {:induction false} ValidFilesMembers(items: seq<FileItem>)
    ensures ValidFiles(items) == [] <==> forall i :: 0 <= i < |items| ==> items[i].status != Loaded
    ensures forall f :: f in ValidFiles(items) <==>
              exists i :: 0 <= i < |items| && items[i].status == Loaded && f == Upload(items[i])
  {
    if items != [] {
      ValidFilesMembers(items[1..]);
      assert forall i :: 1 <= i < |items| ==> items[i] == items[1..][i - 1];
    }
  }

  lemma {:induction false} ValidFilesConcat(a: seq<FileItem>, b: seq<FileItem>)
    ensures ValidFiles(a + b) == ValidFiles(a) + ValidFiles(b)
  {
    if a == [] {
      assert a + b == b;
    } else {
      assert (a + b)[1..] == a[1..] + b;
      ValidFilesConcat(a[1..], b);
    }
  }

  /** Newly picked files are not sent until their read has finished. */
  lemma UploadKeepsValidFiles(items: seq<FileItem>, files: seq<PickedFile>, ids: seq<string>)
    requires |ids| == |files|
    ensures ValidFiles(items + NewItems(files, ids)) == ValidFiles(items)
  {
    var picked := NewItems(files, ids);
    ValidFilesConcat(items, picked);
    ValidFilesMembers(picked);
  }

  /** `removeFile`: the items with another id, in order. */
  function RemoveFile(items: seq<FileItem>, id: string): (r: seq<FileItem>)
    ensures |r| <= |items|
    ensures forall x :: x in r <==> x in items && x.id != id
    ensures (forall j :: 0 <= j < |items| ==> items[j].id != id) ==> r == items
  {
    if items == [] then []
    else
      var rest := RemoveFile(items[1..], id);
      assert forall x :: x in items <==> x == items[0] || x in items[1..];
      if items[0].id == id then rest else [items[0]] + rest
  }

  /** The filter works piece by piece, so the kept items keep their order
      and their number. */
  lemma {:induction false} RemoveFileConcat(a: seq<FileItem>, b: seq<FileItem>, id: string)
    ensures RemoveFile(a + b, id) == RemoveFile(a, id) + RemoveFile(b, id)
  {
    if a == [] {
      assert a + b == b;
    } else {
      assert (a + b)[1..] == a[1..] + b;
      RemoveFileConcat(a[1..], b, id);
    }
  }

  // ---------------------------------------------------------------------
  // Reads finishing

  /** What `reader.result` is when a read ends: the data URL, or `null`
      after a failed read. */
  datatype ReadResult = DataUrl(url: string) | NullResult

  /** `onloadend` as written: the item becomes `success` whatever the
      result; a `null` result is kept as empty data. */
  function LoadEndAsWritten(items: seq<FileItem>, id: string, result: ReadResult): (r: seq<FileItem>)
    ensures |r| == |items|
    ensures forall i :: 0 <= i < |items| && items[i].id == id ==>
              r[i] == items[i].(status := Loaded, data := if result.DataUrl? then result.url else "")
    ensures forall i :: 0 <= i < |items| && items[i].id != id ==> r[i] == items[i]
  {
    seq(|items|, i requires 0 <= i < |items| =>
      if items[i].id == id then items[i].(status := Loaded, data := if result.DataUrl? then result.url else "")
      else items[i])
  }

  /** `onloadend` as evidently intended: only a read that produced data
      marks the item `success`. */
  function LoadEnd(items: seq<FileItem>, id: string, result: ReadResult): (r: seq<FileItem>)
    ensures |r| == |items|
    ensures result.DataUrl? ==> forall i :: 0 <= i < |items| && items[i].id == id ==>
              r[i] == items[i].(status := Loaded, data := result.url)
    ensures result.NullResult? ==> r == items
    ensures forall i :: 0 <= i < |items| && items[i].id != id ==> r[i] == items[i]
  {
    match result
    case NullResult => items
    case DataUrl(url) =>
      seq(|items|, i requires 0 <= i < |items| =>
        if items[i].id == id then items[i].(status := Loaded, data := url) else items[i])
  }

  /** `onerror`: the item becomes `error`. */
  function ReadError(items: seq<FileItem>, id: string): (r: seq<FileItem>)
    ensures |r| == |items|
    ensures forall i :: 0 <= i < |items| && items[i].id == id ==> r[i] == items[i].(status := Failed)
    ensures forall i :: 0 <= i < |items| && items[i].id != id ==> r[i] == items[i]
  {
    seq(|items|, i requires 0 <= i < |items| =>
      if items[i].id == id then items[i].(status := Failed) else items[i])
  }

  /** A read that fails fires `error` and then `loadend` with a `null`
      result. As written, the second handler overrides the first: the file
      ends as read and is sent with empty data. */
  lemma FailedReadSentAsWritten(items: seq<FileItem>, k: nat)
    requires k < |items|
    ensures var r := LoadEndAsWritten(ReadError(items, items[k].id), items[k].id, NullResult);
            r[k].status == Loaded && FileUpload("", items[k].mimeType) in ValidFiles(r)
  {
    var r := LoadEndAsWritten(ReadError(items, items[k].id), items[k].id, NullResult);
    assert Upload(r[k]) == FileUpload("", items[k].mimeType);
    ValidFilesMembers(r);
  }

  /** With the intended handler the failed file stays failed and is never
      sent, and the other files are untouched. */
  lemma FailedReadDropped(items: seq<FileItem>, id: string)
    ensures var r := LoadEnd(ReadError(items, id), id, NullResult);
            && (forall i :: 0 <= i < |r| && r[i].id == id ==> r[i].status == Failed)
            && (forall i :: 0 <= i < |r| && r[i].id != id ==> r[i] == items[i])
            && ValidFiles(r) == ValidFiles(RemoveFile(items, id))
  {
    var r := LoadEnd(ReadError(items, id), id, NullResult);
    FailedDropped(items, r, id);
  }

  lemma {:induction false} FailedDropped(items: seq<FileItem>, r: seq<FileItem>, id: string)
    requires |r| == |items|
    requires forall i :: 0 <= i < |items| && items[i].id == id ==> r[i] == items[i].(status := Failed)
    requires forall i :: 0 <= i < |items| && items[i].id != id ==> r[i] == items[i]
    ensures ValidFiles(r) == ValidFiles(RemoveFile(items, id))
  {
    if items != [] {
      FailedDropped(items[1..], r[1..], id);
    }
  }

  /** A successful read puts the file, with its data, among the attachments
      sent. */
  lemma ReadFileSent(items: seq<FileItem>, k: nat, url: string)
    requires k < |items|
    ensures FileUpload(url, items[k].mimeType) in ValidFiles(LoadEnd(items, items[k].id, DataUrl(url)))
  {
    var r := LoadEnd(items, items[k].id, DataUrl(url));
    assert Upload(r[k]) == FileUpload(url, items[k].mimeType);
    ValidFilesMembers(r);
  }

  // ---------------------------------------------------------------------
  // Submitting

  /** Text to generate from: typed content or at least one read file. */
  predicate HasMaterial(content: string, items: seq<FileItem>) {
    Trim(content) != "" || ValidFiles(items) != []
  }

  /** The configuration `handleSubmit` hands over, if any: none while a
      file is loading, without material or without a name; otherwise the
      trimmed name and topic, the content as typed and the read files. */
  function Submission(content: string, userName: string, topic: string, questionCount: int,
                      duration: int, difficulty: Difficulty, quizType: QuizType,
                      items: seq<FileItem>): (r: Option<QuizConfig>)
    ensures r.Some? <==> !AnyLoading(items) && HasMaterial(content, items) && Trim(userName) != ""
    ensures r.Some? ==> && r.value.userName == Trim(userName) && r.value.userName != ""
                        && r.value.topic == Trim(topic)
                        && Trimmed(r.value.userName) && Trimmed(r.value.topic)
                        && r.value.content == content && r.value.fileUploads == ValidFiles(items)
                        && (Trim(r.value.content) != "" || r.value.fileUploads != [])
                        && r.value.questionCount == questionCount && r.value.durationMinutes == duration
                        && r.value.difficulty == difficulty && r.value.quizType == quizType
  {
    if AnyLoading(items) || !HasMaterial(content, items) || Trim(userName) == "" then None
    else Some(QuizConfig(Trim(userName), Trim(topic), questionCount, duration, difficulty, quizType,
                         content, ValidFiles(items)))
  }

  /** The material message after a submit. */
  function ContentErrorOf(content: string, items: seq<FileItem>): (e: string)
    ensures e == "" <==> HasMaterial(content, items)
  {
    if !HasMaterial(content, items) then NoMaterialMessage else ""
  }

  /** The name message after a submit. */
  function NameErrorOf(userName: string): (e: string)
    ensures e == "" <==> Trim(userName) != ""
  {
    if Trim(userName) == "" then NameRequiredMessage else ""
  }

  /** A blocked submission always explains itself, except when it waits
      only for a file still being read. */
  lemma RejectedSubmissionExplained(content: string, userName: string, topic: string, n: int, d: int,
                                     diff: Difficulty, qt: QuizType, items: seq<FileItem>)
    requires Submission(content, userName, topic, n, d, diff, qt, items).None?
    ensures ContentErrorOf(content, items) == "" && NameErrorOf(userName) == "" ==> AnyLoading(items)
  {
  }

  /** `history.some(q => q.status === 'IN_PROGRESS')` */
  predicate AnyInProgress(h: seq<QuizResult>) {
    exists i :: 0 <= i < |h| && h[i].status == InProgress
  }

  // ---------------------------------------------------------------------
  // The form

  class Form {
    var content: string
    var userName: string
    var topic: string
    var questionCount: QuestionCount
    var duration: SliderMinutes
    var difficulty: Difficulty
    var quizType: QuizType
    var items: seq<FileItem>
    var nameError: string
    var contentError: string
    var hasIncompleteQuiz: bool
    const store: Storage.Store

    /** At most five attachments. */
    predicate Valid()
      reads this
    {
      |items| <= MaxFiles
    }

    constructor (store: Storage.Store)
      ensures Valid() && this.store == store
      ensures content == "" && userName == "" && topic == "" && items == []
      ensures questionCount == 10 && duration == 15 && difficulty == Medium && quizType == MultipleChoice
      ensures nameError == "" && contentError == "" && !hasIncompleteQuiz
    {
      content := "";
      userName := "";
      topic := "";
      questionCount := 10;
      duration := 15;
      difficulty := Medium;
      quizType := MultipleChoice;
      items := [];
      nameError := "";
      contentError := "";
      hasIncompleteQuiz := false;
      this.store := store;
    }

    /** The mount effect: a saved non-empty name fills the name field, and
        the history decides whether an unfinished attempt is mentioned (an
        unreadable history leaves the flag alone). */
    method Mount()
      modifies this
      ensures store.userName.Some? && store.userName.value != "" ==> userName == store.userName.value
      ensures !(store.userName.Some? && store.userName.value != "") ==> userName == old(userName)
      ensures store.history.Stored? ==> hasIncompleteQuiz == AnyInProgress(store.history.value)
      ensures store.history.Absent? ==> !hasIncompleteQuiz
      ensures store.history.Corrupt? ==> hasIncompleteQuiz == old(hasIncompleteQuiz)
      ensures items == old(items) && content == old(content) && topic == old(topic)
      ensures questionCount == old(questionCount) && duration == old(duration)
      ensures difficulty == old(difficulty) && quizType == old(quizType)
      ensures nameError == old(nameError) && contentError == old(contentError)
    {
      if store.userName.Some? && store.userName.value != "" {
        userName := store.userName.value;
      }
      match store.history {
        case Absent =>
          hasIncompleteQuiz := false;
        case Stored(history) =>
          hasIncompleteQuiz := AnyInProgress(history);
        case Corrupt =>
      }
    }

    /** Typing in the material field also clears the material message. */
    method SetContent(s: string)
      modifies this
      ensures content == s && contentError == ""
      ensures items == old(items) && userName == old(userName) && topic == old(topic)
      ensures questionCount == old(questionCount) && duration == old(duration)
      ensures difficulty == old(difficulty) && quizType == old(quizType)
      ensures nameError == old(nameError) && hasIncompleteQuiz == old(hasIncompleteQuiz)
    {
      content := s;
      contentError := "";
    }

    /** Typing in the name field also clears the name message. */
    method SetUserName(s: string)
      modifies this
      ensures userName == s && nameError == ""
      ensures items == old(items) && content == old(content) && topic == old(topic)
      ensures questionCount == old(questionCount) && duration == old(duration)
      ensures difficulty == old(difficulty) && quizType == old(quizType)
      ensures contentError == old(contentError) && hasIncompleteQuiz == old(hasIncompleteQuiz)
    {
      userName := s;
      nameError := "";
    }

    /** The topic field. */
    method SetTopic(s: string)
      modifies this
      ensures topic == s
      ensures items == old(items) && content == old(content) && userName == old(userName)
      ensures questionCount == old(questionCount) && duration == old(duration)
      ensures difficulty == old(difficulty) && quizType == old(quizType)
      ensures nameError == old(nameError) && contentError == old(contentError)
      ensures hasIncompleteQuiz == old(hasIncompleteQuiz)
    {
      topic := s;
    }

    /** The question-type select. */
    method SetQuizType(t: QuizType)
      modifies this
      ensures quizType == t
      ensures items == old(items) && content == old(content) && userName == old(userName) && topic == old(topic)
      ensures questionCount == old(questionCount) && duration == old(duration) && difficulty == old(difficulty)
      ensures nameError == old(nameError) && contentError == old(contentError)
      ensures hasIncompleteQuiz == old(hasIncompleteQuiz)
    {
      quizType := t;
    }

    /** The question-count slider, from 3 to 50. */
    method SetQuestionCount(n: QuestionCount)
      modifies this
      ensures questionCount == n
      ensures items == old(items) && content == old(content) && userName == old(userName) && topic == old(topic)
      ensures duration == old(duration) && difficulty == old(difficulty) && quizType == old(quizType)
      ensures nameError == old(nameError) && contentError == old(contentError)
      ensures hasIncompleteQuiz == old(hasIncompleteQuiz)
    {
      questionCount := n;
    }

    /** The time slider, from 1 to 180 minutes. */
    method SetDuration(n: SliderMinutes)
      modifies this
      ensures duration == n
      ensures items == old(items) && content == old(content) && userName == old(userName) && topic == old(topic)
      ensures questionCount == old(questionCount) && difficulty == old(difficulty) && quizType == old(quizType)
      ensures nameError == old(nameError) && contentError == old(contentError)
      ensures hasIncompleteQuiz == old(hasIncompleteQuiz)
    {
      duration := n;
    }

    /** One of the difficulty buttons. */
    method SetDifficulty(d: Difficulty)
      modifies this
      ensures difficulty == d
      ensures items == old(items) && content == old(content) && userName == old(userName) && topic == old(topic)
      ensures questionCount == old(questionCount) && duration == old(duration) && quizType == old(quizType)
      ensures nameError == old(nameError) && contentError == old(contentError)
      ensures hasIncompleteQuiz == old(hasIncompleteQuiz)
    {
      difficulty := d;
    }

    /** `handleFileUpload`: an empty pick does nothing; a pick that would
        exceed five files is refused with a message; otherwise the message
        is cleared and one loading item per file is appended. */
    method HandleFileUpload(files: seq<PickedFile>, ids: seq<string>)
      requires Valid() && |ids| == |files|
      modifies this
      ensures Valid()
      ensures files == [] ==> items == old(items) && contentError == old(contentError)
      ensures files != [] && |old(items)| + |files| > MaxFiles ==>
                items == old(items) && contentError == TooManyFilesMessage
      ensures files != [] && |old(items)| + |files| <= MaxFiles ==>
                items == old(items) + NewItems(files, ids) && contentError == ""
      ensures ValidFiles(items) == ValidFiles(old(items))
      ensures userName == old(userName) && content == old(content) && topic == old(topic)
      ensures questionCount == old(questionCount) && duration == old(duration) && nameError == old(nameError)
      ensures difficulty == old(difficulty) && quizType == old(quizType)
      ensures hasIncompleteQuiz == old(hasIncompleteQuiz)
    {
      if |files| == 0 {
        return;
      }
      if |items| + |files| > MaxFiles {
        contentError := TooManyFilesMessage;
        return;
      }
      contentError := "";
      UploadKeepsValidFiles(items, files, ids);
      items := items + NewItems(files, ids);
    }

    /** The read of the file with this id has ended. This runs the corrected
        handler `LoadEnd`; the handler as written is `LoadEndAsWritten`. */
    method OnLoadEnd(id: string, result: ReadResult)
      requires Valid()
      modifies this
      ensures Valid() && items == LoadEnd(old(items), id, result)
      ensures userName == old(userName) && content == old(content) && topic == old(topic)
      ensures questionCount == old(questionCount) && duration == old(duration)
      ensures difficulty == old(difficulty) && quizType == old(quizType)
      ensures contentError == old(contentError) && nameError == old(nameError)
      ensures hasIncompleteQuiz == old(hasIncompleteQuiz)
    {
      items := LoadEnd(items, id, result);
    }

    /** The read of the file with this id has failed. */
    method OnReadError(id: string)
      requires Valid()
      modifies this
      ensures Valid() && items == ReadError(old(items), id)
      ensures userName == old(userName) && content == old(content) && topic == old(topic)
      ensures questionCount == old(questionCount) && duration == old(duration)
      ensures difficulty == old(difficulty) && quizType == old(quizType)
      ensures contentError == old(contentError) && nameError == old(nameError)
      ensures hasIncompleteQuiz == old(hasIncompleteQuiz)
    {
      items := ReadError(items, id);
    }

    /** The remove button of an attachment. */
    method Remove(id: string)
      requires Valid()
      modifies this
      ensures Valid() && items == RemoveFile(old(items), id)
      ensures userName == old(userName) && content == old(content) && topic == old(topic)
      ensures questionCount == old(questionCount) && duration == old(duration)
      ensures difficulty == old(difficulty) && quizType == old(quizType)
      ensures contentError == old(contentError) && nameError == old(nameError)
      ensures hasIncompleteQuiz == old(hasIncompleteQuiz)
    {
      items := RemoveFile(items, id);
    }

    /** `handleSubmit`: both messages are recomputed; when the submission
        goes ahead the trimmed name is remembered for next time. */
    method HandleSubmit() returns (submitted: Option<QuizConfig>)
      requires Valid()
      modifies this, store
      ensures submitted == Submission(content, userName, topic, questionCount, duration, difficulty, quizType, items)
      ensures submitted.Some? ==> MinQuestions <= submitted.value.questionCount <= MaxQuestions
                                  && MinMinutes <= submitted.value.durationMinutes <= MaxMinutes
      ensures contentError == ContentErrorOf(content, items) && nameError == NameErrorOf(userName)
      ensures submitted.Some? ==> store.userName == Some(Trim(userName))
      ensures submitted.None? ==> store.userName == old(store.userName)
      ensures Valid() && items == old(items) && content == old(content) && userName == old(userName)
      ensures topic == old(topic) && questionCount == old(questionCount) && duration == old(duration)
      ensures difficulty == old(difficulty) && quizType == old(quizType)
      ensures hasIncompleteQuiz == old(hasIncompleteQuiz)
      ensures store.session == old(store.session) && store.progress == old(store.progress)
      ensures store.history == old(store.history) && store.userKeys == old(store.userKeys)
    {
      nameError := "";
      contentError := "";
      var isValid := true;
      var validFiles := ValidFiles(items);
      if Trim(content) == "" && |validFiles| == 0 {
        contentError := NoMaterialMessage;
        isValid := false;
      }
      if Trim(userName) == "" {
        nameError := NameRequiredMessage;
        isValid := false;
      }
      if AnyLoading(items) || !isValid {
        return None;
      }
      store.userName := Some(Trim(userName));
      submitted := Some(QuizConfig(Trim(userName), Trim(topic), questionCount, duration, difficulty, quizType,
                                   content, validFiles));
    }
  }
}
