# Quiz generator client — a Dafny model

This project models the client-side core of a browser quiz generator.
- A user names some material and sets a question count, a time limit, a difficulty and a quiz type. The material is typed text or up to five attachments.
- The app sends a generation request to a remote language-model service. It tries the available API keys in order and moves on to the next key only after a rate-limit or quota failure.
- The user takes the timed quiz. Progress is checkpointed to browser storage and mirrored into the history list.
- Finally the app scores the attempt and shows the results, a per-question review and the history.

Every screen and the service layer keep their state in `localStorage`. Here it is a shared `Storage.Store` object with one slot per key. A slot is absent, holds a value of the expected shape, or is unreadable.

Modules, one per source file:

| module | file | form |
|---|---|---|
| `QuizTypes` | `types.ts` | datatypes |
| `Storage` | the `localStorage` keys used throughout | class `Store` |
| `Strings` | the JavaScript string built-ins the code relies on (`trim`, `toLowerCase`, `includes`, `split`, `join`, number rendering) | functions and lemmas |
| `GeminiService` | `services/geminiService.ts` | functions, and methods with loops |
| `HistoryView` | `components/HistoryView.tsx` (scoring loop, sort) | functions, lemmas, a method with a loop |
| `ResultsView` | `components/ResultsView.tsx` | functions and lemmas |
| `ReviewView` | `components/ReviewView.tsx` | functions and lemmas |
| `QuizInterface` | `components/QuizInterface.tsx` | class `QuizSession` and its specification functions |
| `SetupForm` | `components/SetupForm.tsx` | class `Form` and its specification functions |
| `ApiManagement` | `components/ApiManagement.tsx` | class `KeyManager` and its specification functions |
| `AppShell` | `App.tsx` | class `App` and its specification functions |

These become parameters:
- the remote service: `call`, from the attempt number, the key and the request parts to a response or an error;
- JSON decoding of the response: `decode`;
- the key validator: its answer for the key, the `keyIsValid` flag;
- random ids, clocks and the request id and timestamp: plain arguments;
- storage writes inside `try` blocks that may fail: `writeFails` flags.

## Model

| member | source | states |
|---|---|---|
| GeminiService.GetAvailableKeys | services/geminiService.ts:24-43 | a non-empty stored key list is used as it is; otherwise the comma-separated deployment keys; otherwise no keys |
| GeminiService.CleanKeys | services/geminiService.ts:39 | the result keeps only trimmed, non-empty pieces and is never longer than the input |
| GeminiService.CleanKeysConcat | services/geminiService.ts:39 | cleaning works piece by piece, so the order of keys is kept |
| GeminiService.EnvKeys | services/geminiService.ts:37-40 | every deployment key is trimmed and non-empty |
| GeminiService.EnvKeysConcat | services/geminiService.ts:39 | the keys of `a,b` are the keys of `a` followed by those of `b` |
| GeminiService.EnvKeysSingle | services/geminiService.ts:39 | a value without a comma gives its trimmed self, or nothing when blank |
| GeminiService.CleanBase64 | services/geminiService.ts:134 | the second comma-separated piece (between the first and second comma) when it is non-empty, else the data unchanged; the result never contains a comma unless it is the input |
| GeminiService.CleanBase64DataUrl | services/geminiService.ts:134 | any data with a comma, written `header,payload` plus nothing or the rest from the second comma, yields `payload` when it is non-empty and the data unchanged otherwise |
| GeminiService.CleanBase64Plain | services/geminiService.ts:134 | plain base64 without a comma is sent unchanged |
| GeminiService.BuildParts | services/geminiService.ts:126-136 | the session tag first, then the content if non-empty, then one inline part per attachment in order |
| GeminiService.RemoveAll | services/geminiService.ts:12 | removing a pattern never lengthens the text |
| GeminiService.RemoveAllSkips | services/geminiService.ts:12 | text with no occurrence of the pattern passes through unchanged |
| GeminiService.StripFencesOfFenced | services/geminiService.ts:12 | a response wrapped in json code fences is reduced to its trimmed body |
| GeminiService.StripFencesOfPlain | services/geminiService.ts:12 | a response without backticks is only trimmed |
| GeminiService.AttemptOf | services/geminiService.ts:10-18 | an attempt succeeds exactly when the response text is non-empty and decodes; a failure always has a non-empty message |
| GeminiService.NotQuotaWithout | services/geminiService.ts:164 | a message without `4` and `q` is not a quota error |
| GeminiService.OwnMessagesAreNotQuota | services/geminiService.ts:16 | the empty-response, unprocessable and unknown-error messages never count as quota errors |
| GeminiService.AttemptsOf | services/geminiService.ts:140-158 | one attempt per key, in key order |
| GeminiService.StopIndex | services/geminiService.ts:164-167 | the first attempt at which the loop stops: every earlier one is a quota failure that is not on the last key |
| GeminiService.StopIndexIs | services/geminiService.ts:164-167 | an index that meets the stopping condition is the stopping index |
| GeminiService.FailureLog | services/geminiService.ts:162 | one line `Key i+1 Failure: message` per failed attempt, in order |
| GeminiService.Generate | services/geminiService.ts:138-172 | no keys fail fast. A success returns the data after only quota failures. Otherwise the error is the marker followed by the joined log, whose last line is a non-quota failure or belongs to the last key |
| GeminiService.GenerateStopsAt | services/geminiService.ts:140-172 | the run is decided by the first stopping attempt alone |
| GeminiService.GenerateQuizFromContent | services/geminiService.ts:65-172 | the outcome and logs are `Generate` of the attempts on the available keys; the request parts are `BuildParts`'s |
| GeminiService.TryKeys | services/geminiService.ts:138-172 | the loop's result and log equal `Generate` of the attempts |
| GeminiService.NoKeysFailsFast | services/geminiService.ts:68-70 | with no keys the no-keys error is raised and it carries no marker |
| GeminiService.FirstSuccessAfterQuotaFailures | services/geminiService.ts:140-165 | after quota failures on earlier keys, the first success wins and the earlier failures are logged |
| GeminiService.AllQuotaFailuresExhaustKeys | services/geminiService.ts:164-172 | when every key hits its quota, all keys are tried and every attempt is logged |
| GeminiService.NonQuotaFailureStops | services/geminiService.ts:164-172 | a non-quota failure stops the loop; later keys are never consulted |
| GeminiService.UnusableResponseIsCritical | services/geminiService.ts:155-172 | an empty or undecodable response stops the loop with a critical error |
| HistoryView.Classify | components/HistoryView.tsx:34-46 | skipped iff the answer is missing or empty. An option question is correct iff the answer is the correct index. A short answer is correct iff its normalised text is non-empty and equals the normalised canonical answer |
| HistoryView.CountOf | components/HistoryView.tsx:33-48 | a count never exceeds the number of questions |
| HistoryView.CountsPartition | components/HistoryView.tsx:33-49 | correct + wrong + skipped equals the number of questions |
| HistoryView.SkippedNeverWrong | components/HistoryView.tsx:35-36 | an attempt with no answers has only skipped questions |
| HistoryView.Score | components/HistoryView.tsx:50 | `NaN` exactly for an empty quiz; otherwise the exact percentage rounded half up (the source rounds a floating-point product; see "Left out") |
| HistoryView.ScoreRange | components/HistoryView.tsx:50 | the score of a non-empty quiz lies in 0..100 |
| HistoryView.ScoreExtremes | components/HistoryView.tsx:50 | all correct scores 100, none correct scores 0 |
| HistoryView.SevenOfNine | components/HistoryView.tsx:50 | 7 of 9 rounds 77.8 up to 78 |
| HistoryView.StatsOf | components/HistoryView.tsx:29-52 | the three counts add up to the total, and the score is that of the correct count |
| HistoryView.CalculateScore | components/HistoryView.tsx:54 | undefined (`NaN`) exactly for an attempt without questions, otherwise in 0..100 |
| HistoryView.GetStats | components/HistoryView.tsx:29-52 | the counting loop computes exactly `StatsOf` |
| ResultsView.Stats | components/ResultsView.tsx:19-45 | the results screen runs the same loop: its counts add up to the total, its score of a non-empty quiz is in 0..100, and it equals the history screen's `StatsOf` |
| HistoryView.Insert | components/HistoryView.tsx:27 | inserting into a newest-first list keeps it newest-first and adds exactly one entry |
| HistoryView.SortedHistory | components/HistoryView.tsx:27 | the displayed list is newest-first and a permutation of the stored one |
| HistoryView.InsertWithTime | components/HistoryView.tsx:27 | inserting keeps the relative order of entries with equal timestamps |
| HistoryView.SortedHistoryStable | components/HistoryView.tsx:27 | the sort is stable: equal timestamps keep their stored order |
| ResultsView.ScoreStatus | components/ResultsView.tsx:207-212 | 90 and over is outstanding, 70-89 great work, 50-69 passable, anything lower or `NaN` needs review |
| ResultsView.BandMonotone | components/ResultsView.tsx:207-212 | a higher score never earns a lower band |
| ResultsView.BandOfExtremes | components/ResultsView.tsx:207-212 | all correct is outstanding; none correct needs review |
| ReviewView.CloseFrom | components/ReviewView.tsx:13 | the lazy `.*?` stops at the first `**` and crosses no line terminator |
| ReviewView.FirstMatch | components/ReviewView.tsx:13 | the leftmost match is a bold run, and no match starts earlier |
| ReviewView.SplitFrom | components/ReviewView.tsx:13 | an odd number of pieces, every second one a bold run, which concatenate to the text |
| ReviewView.FirstMatchIsMatch | components/ReviewView.tsx:13 | the run the search finds is the match of the pattern at its start |
| ReviewView.SplitFromLeftmost | components/ReviewView.tsx:13 | the matches are found leftmost first: no match starts inside a plain piece, and each bold piece is the match at its position |
| ReviewView.SplitFromUnique | components/ReviewView.tsx:13 | the split is the only list of pieces that concatenates to the text and is read leftmost first |
| ReviewView.SplitBold | components/ReviewView.tsx:13 | the same for the whole explanation: odd count, bold runs in odd places, concatenation, and leftmost matching |
| ReviewView.SplitBoldWhole | components/ReviewView.tsx:13 | an explanation stays a single plain piece exactly when no match of the pattern starts in it |
| ReviewView.Render | components/ReviewView.tsx:15-22 | a piece is bold exactly when it starts and ends with `**`, and then loses just those four characters; other pieces are shown as they are |
| ReviewView.BoldRunRenders | components/ReviewView.tsx:13-18 | every match is rendered bold, and putting the delimiters back gives the match |
| ReviewView.RenderRoundTrip | components/ReviewView.tsx:15-22 | putting the delimiters back gives the piece exactly when it is neither `**` nor `***`; the shown text is never shorter than the piece |
| ReviewView.ShownAllConcat | components/ReviewView.tsx:14-23 | rendering piece by piece and putting the delimiters back gives the concatenation exactly when no piece is `**` or `***` |
| ReviewView.ExplanationRoundTrip | components/ReviewView.tsx:12-24 | the rendered explanation with delimiters put back is the original text exactly when no plain piece is `**` or `***` |
| ReviewView.IsCorrect | components/ReviewView.tsx:43-51 | a short answer is correct iff the optional normalised texts are equal, so an unanswered question without a canonical answer counts as correct. An option question is correct iff the answer equals the correct index, missing on both sides included |
| ReviewView.CardStateOf | components/ReviewView.tsx:53-81 | correct first, then skipped, then incorrect; exactly one applies |
| ReviewView.OptionMarkOf | components/ReviewView.tsx:107-119 | the correct option is marked correct; a chosen wrong option is marked wrong; all others are unmarked |
| ReviewView.OptionMarksUnique | components/ReviewView.tsx:107-119 | at most one option is marked correct and at most one wrong |
| ReviewView.ReviewAgreesWithScoring | components/ReviewView.tsx:43-54 | for an answered question with a non-blank short answer, the review and the score agree |
| ReviewView.UnansweredWithoutAnswerShownCorrect | components/ReviewView.tsx:47-53 | where the two rules part: such a question is skipped in the score but shown as correct |
| QuizInterface.IdStrings | components/QuizInterface.tsx:33 | each id is rendered in decimal, in order |
| QuizInterface.FingerprintInjective | components/QuizInterface.tsx:33-34 | two question lists have the same fingerprint iff they have the same ids in the same order |
| QuizInterface.Previous | components/QuizInterface.tsx:189 | never below 0; one step back from any later question |
| QuizInterface.Next | components/QuizInterface.tsx:201 | never past the last question; one step forward before it |
| QuizInterface.Toggle | components/QuizInterface.tsx:129-136 | the id's flag flips, the other flags stay, and no id appears twice |
| QuizInterface.Without | components/QuizInterface.tsx:132 | the id is gone and nothing else changes |
| QuizInterface.ToggleTwice | components/QuizInterface.tsx:129-136 | toggling twice restores the set of flags, and the list itself when the id was not flagged |
| QuizInterface.WithoutLast | components/QuizInterface.tsx:132 | removing the id just appended restores the list |
| QuizInterface.Dedup | components/QuizInterface.tsx:38 | `new Set(array)`: no duplicates, same members (the order kept is not stated) |
| QuizInterface.DedupOfDistinct | components/QuizInterface.tsx:38 | a list without duplicates is kept in order |
| QuizInterface.TickTime | components/QuizInterface.tsx:76-83 | at one second or less the timer fires and shows 0; otherwise it counts down by one |
| QuizInterface.Pad2 | components/QuizInterface.tsx:106 | at least two characters: digits only, exactly two below 100, for a non-negative number; the plain numeral with its minus sign for a negative one |
| QuizInterface.Rem60 | components/QuizInterface.tsx:105 | JavaScript's `% 60`: Dafny's remainder for a non-negative number; for a negative one zero or that remainder minus 60, so it takes the sign of the dividend |
| QuizInterface.Pad2Value | components/QuizInterface.tsx:106 | padding keeps the value |
| QuizInterface.FormatTime | components/QuizInterface.tsx:103-107 | defined on every integer number of seconds, with floored minutes and a sign-keeping remainder; the text contains a colon |
| QuizInterface.FormatTimeRoundTrip | components/QuizInterface.tsx:103-107 | for a clock at or above zero the two fields read back as the minutes and seconds |
| QuizInterface.FormatTimeNegative | components/QuizInterface.tsx:103-107 | a clock below zero shows negative floored minutes, and negative seconds unless it is a whole number of minutes |
| QuizInterface.NegativeClockShown | components/QuizInterface.tsx:103-107 | −300 seconds show as `-5:00` and −301 as `-6:-1` |
| QuizInterface.RestoreFrom | components/QuizInterface.tsx:28-44 | a checkpoint of another quiz, or none, changes nothing. A matching one restores the index (default 0) and answers (default none); a saved clock replaces the clock and saved flags replace the flags, de-duplicated, while a missing clock or missing flags leave the current ones |
| QuizInterface.SaveRestoreRoundTrip | components/QuizInterface.tsx:28-54 | restoring what was saved for the same ids gives back the saved progress |
| QuizInterface.OtherQuizCheckpointIgnored | components/QuizInterface.tsx:33-34 | a checkpoint for other ids is ignored |
| QuizInterface.MirrorTarget | components/QuizInterface.tsx:58 | the first in-progress entry whose first question has the same text, found whenever it comes before every in-progress entry without questions; the search throws iff such an entry comes first |
| QuizInterface.MirrorEntry | components/QuizInterface.tsx:61-67 | answers, index and flags are copied; time taken plus time left is the duration |
| QuizInterface.Mirror | components/QuizInterface.tsx:56-70 | only the found entry changes; without a match, or when the search throws, the list is left alone |
| QuizInterface.MirrorUpdatesFirstMatch | components/QuizInterface.tsx:58-70 | the first matching entry is updated even when an in-progress entry without questions follows it, and no other entry changes |
| QuizInterface.QuizSession.constructor | components/QuizInterface.tsx:13-20 | first question, no answers, the full duration, no flags |
| QuizInterface.QuizSession.RestoreProgress | components/QuizInterface.tsx:28-44 | the state becomes `RestoreFrom` of the stored checkpoint |
| QuizInterface.QuizSession.SaveProgress | components/QuizInterface.tsx:46-71 | the checkpoint always holds the current state, and the history is `Mirror`ed unless the write fails |
| QuizInterface.QuizSession.GoPrevious | components/QuizInterface.tsx:189 | the index becomes `Previous` and stays on a question |
| QuizInterface.QuizSession.GoNext | components/QuizInterface.tsx:201 | the index becomes `Next` and stays on a question |
| QuizInterface.QuizSession.JumpTo | components/QuizInterface.tsx:276 | the sidebar jumps to the chosen question |
| QuizInterface.QuizSession.SelectOption | components/QuizInterface.tsx:109-115 | the current question's answer becomes the option index |
| QuizInterface.QuizSession.TextAnswer | components/QuizInterface.tsx:117-119 | the current question's answer becomes the text, even an empty one |
| QuizInterface.QuizSession.UndoAnswer | components/QuizInterface.tsx:121-127 | the current question's answer is removed |
| QuizInterface.QuizSession.ToggleReviewMark | components/QuizInterface.tsx:129-136 | the current question's flag is `Toggle`d and no id is flagged twice |
| QuizInterface.QuizSession.CheckCompletion | components/QuizInterface.tsx:138-147 | nothing with no answers; the incomplete alert when some are missing; otherwise the submit confirmation |
| QuizInterface.QuizSession.Tick | components/QuizInterface.tsx:74-87 | the clock follows `TickTime` and the tick reports when it fires the submission |
| QuizInterface.QuizSession.HandleSubmit | components/QuizInterface.tsx:149-152 | hands over the answers; time taken plus time left equals the duration |
| SetupForm.NewItems | components/SetupForm.tsx:116-119 | one loading item per picked file with its id and name; an unknown type becomes `application/octet-stream` |
| SetupForm.ValidFiles | components/SetupForm.tsx:138 | never more attachments than items |
| SetupForm.ValidFilesMembers | components/SetupForm.tsx:138 | the attachments are exactly the uploads of the read files, none exactly when no file is read |
| SetupForm.ValidFilesConcat | components/SetupForm.tsx:138 | the filter keeps the order of the files |
| SetupForm.UploadKeepsValidFiles | components/SetupForm.tsx:118-120 | newly picked files are not sent until their read has ended |
| SetupForm.RemoveFile | components/SetupForm.tsx:132 | exactly the items with another id remain; with no item of that id the list is unchanged |
| SetupForm.RemoveFileConcat | components/SetupForm.tsx:132 | the filter works piece by piece, so the kept items keep their order and number |
| SetupForm.LoadEndAsWritten | components/SetupForm.tsx:124 | the items with the id become read, with the result as data, whatever the result; the others are untouched |
| SetupForm.LoadEnd | components/SetupForm.tsx:124 | as intended: only a result with data marks the items read; a failed read changes nothing |
| SetupForm.ReadError | components/SetupForm.tsx:125 | the items with the id become failed; the others are untouched |
| SetupForm.FailedReadSentAsWritten | components/SetupForm.tsx:124-125 | as written, a failed read ends marked read and is sent with empty data |
| SetupForm.FailedReadDropped | components/SetupForm.tsx:124-125 | with the intended handler a failed file stays failed and the attachments sent are those without it |
| SetupForm.ReadFileSent | components/SetupForm.tsx:124 | a successful read puts the file and its data among the attachments |
| SetupForm.Submission | components/SetupForm.tsx:134-144 | a configuration iff no file is loading, there is material and a non-blank name. It carries the name and topic trimmed (equal to `Trim` of what was typed), the content as typed and exactly the read files |
| SetupForm.ContentErrorOf | components/SetupForm.tsx:139 | the material message appears iff there is neither content nor a read file |
| SetupForm.NameErrorOf | components/SetupForm.tsx:140 | the name message appears iff the name is blank |
| SetupForm.RejectedSubmissionExplained | components/SetupForm.tsx:139-141 | a blocked submission shows a message unless it only waits for a file being read |
| SetupForm.Form.constructor | components/SetupForm.tsx:30-39 | empty fields, 10 questions, 15 minutes, medium, multiple choice |
| SetupForm.Form.Mount | components/SetupForm.tsx:50-57 | a saved non-empty name fills the field; the unfinished-attempt flag follows the history, or stays when it is unreadable; every other field is unchanged |
| SetupForm.Form.SetContent | components/SetupForm.tsx:187 | typing material sets it and clears the material message; every other field is unchanged |
| SetupForm.Form.SetUserName | components/SetupForm.tsx:198 | typing a name sets it and clears the name message; every other field is unchanged |
| SetupForm.Form.SetTopic | components/SetupForm.tsx:199 | the topic is set; every other field is unchanged |
| SetupForm.Form.SetQuizType | components/SetupForm.tsx:202 | the question type is set; every other field is unchanged |
| SetupForm.Form.SetQuestionCount | components/SetupForm.tsx:203 | the count is set, within the slider's 3..50; every other field is unchanged |
| SetupForm.Form.SetDuration | components/SetupForm.tsx:204 | the duration is set, within the slider's 1..180 minutes; every other field is unchanged |
| SetupForm.Form.SetDifficulty | components/SetupForm.tsx:205 | the difficulty is set; every other field is unchanged |
| SetupForm.Form.HandleFileUpload | components/SetupForm.tsx:111-130 | an empty pick changes nothing. More than five files in all is refused with the message. Otherwise the message clears and loading items are appended; at most five items ever; the attachments sent do not change; every other field is unchanged |
| SetupForm.Form.OnLoadEnd | components/SetupForm.tsx:124 | the list becomes `LoadEnd` of the read's result, the corrected handler of the finding below; every other field is unchanged |
| SetupForm.Form.OnReadError | components/SetupForm.tsx:125 | the list becomes `ReadError`; every other field is unchanged |
| SetupForm.Form.Remove | components/SetupForm.tsx:132 | the list becomes `RemoveFile`; every other field is unchanged |
| SetupForm.Form.HandleSubmit | components/SetupForm.tsx:134-144 | returns `Submission`, sets both messages, and remembers the trimmed name only when it submits; the count and duration are within the sliders' ranges; no other field and no other storage slot changes |
| ApiManagement.RemoveAt | components/ApiManagement.tsx:58 | the element at the index is removed; an index out of range changes nothing |
| ApiManagement.RemoveAtMultiset | components/ApiManagement.tsx:56-62 | deleting removes exactly one occurrence of the chosen key |
| ApiManagement.MaskKey | components/ApiManagement.tsx:64 | a key shorter than ten characters is shown whole; a longer one as its first six, `...`, and its last four, thirteen characters in all; never more than thirteen |
| ApiManagement.MaskHidesMiddle | components/ApiManagement.tsx:64 | keys that agree on their first six and last four characters look the same |
| ApiManagement.AddDecision | components/ApiManagement.tsx:36-54 | too short iff the trimmed input has fewer than ten characters; accepted iff it is long enough and valid, and then the key is the trimmed input |
| ApiManagement.AddedKeyTriedLast | components/ApiManagement.tsx:45-47 | a key added here is used by the generator after the keys added before it |
| ApiManagement.DeletingLastKeyFallsBack | components/ApiManagement.tsx:56-62 | deleting the only key makes the generator fall back to the deployment keys |
| ApiManagement.KeyManager.constructor | components/ApiManagement.tsx:13-18 | no keys, empty input, no message, no pending delete |
| ApiManagement.KeyManager.Load | components/ApiManagement.tsx:20-29 | a stored list is shown; a missing or unreadable one is ignored |
| ApiManagement.KeyManager.SaveKeys | components/ApiManagement.tsx:31-34 | the list shown and the list stored are the same |
| ApiManagement.KeyManager.HandleAdd | components/ApiManagement.tsx:36-54 | follows `AddDecision`: a message on refusal with nothing stored, or the trimmed key appended, stored and the input cleared |
| ApiManagement.KeyManager.RequestDelete | components/ApiManagement.tsx:116 | the key's index awaits confirmation |
| ApiManagement.KeyManager.CancelDelete | components/ApiManagement.tsx:77 | the pending delete is dropped |
| ApiManagement.KeyManager.ConfirmDelete | components/ApiManagement.tsx:56-62 | removes the pending key from the list and the store; without a pending delete nothing happens |
| AppShell.Persisted | App.tsx:72-83 | the snapshot is removed on the listed screens, written otherwise, or left as it was when the write fails |
| AppShell.PersistKeepsInvariant | App.tsx:72-83 | the stored snapshot is always of a quiz, results or review screen |
| AppShell.ColdStart | App.tsx:46-70 | unreadable → removed. Generating → setup. Quiz, results or review → setup with the notice. Any other saved screen but the landing page is restored whole: screen, questions, configuration and result. A saved landing page leaves the initial state. Never starts in a quiz or generating |
| AppShell.ReloadAfterPersist | App.tsx:46-83 | after a reload, a snapshot the app wrote leads to setup with the notice, and none to the landing page |
| AppShell.FirstIndexById | App.tsx:88 | the first entry with the id, or none iff no entry has it |
| AppShell.Upserted | App.tsx:88-90 | the first entry with the id is replaced in place; otherwise the entry is appended |
| AppShell.UpsertSameIdAgain | App.tsx:85-93 | writing the same attempt again replaces it and never adds an entry |
| AppShell.UpsertKeepsIdsUnique | App.tsx:85-93 | ids stay unique |
| AppShell.WithoutId | App.tsx:173 | exactly the entries with another id remain; a list without the id is unchanged |
| AppShell.WithoutIdConcat | App.tsx:188 | the filter keeps the relative order of the entries |
| AppShell.UpdatedHistory | App.tsx:85-93 | an unreadable list or a failing write changes nothing; otherwise the upserted list, starting from empty when missing |
| AppShell.FinalTitle | App.tsx:110 | the model's title, else the topic, else `Generated Assessment`; never empty |
| AppShell.Classify | App.tsx:128-134 | critical iff the message holds the marker; otherwise the message, or the default text when empty |
| AppShell.CriticalReportShowsLogs | App.tsx:128-131 | the critical report shows exactly the log text after the marker |
| AppShell.FailoverReportIsCritical | App.tsx:128-131 | when every usable key failed, the report shows the failover loop's own log lines |
| AppShell.ServiceErrorsAreOrdinary | App.tsx:109 | the no-keys and no-questions errors are shown as ordinary errors |
| AppShell.InitialAttempt | App.tsx:114-123 | a new attempt is in progress, without answers, at question 0, with no time taken |
| AppShell.CompletedAttempt | App.tsx:141-147 | completion replaces status, answers, time and index and keeps id, title, timestamp and questions |
| AppShell.ResumeCheckpoint | App.tsx:208-214 | the checkpoint carries the attempt's fingerprint and 900 seconds less the time taken |
| AppShell.ResumeConfig | App.tsx:198-229 | 15 minutes for a resumed attempt, 0 for a reviewed one; the title becomes the topic |
| AppShell.ResumeRestores | App.tsx:194-216 | the quiz screen then restores the attempt's index, answers, flags and clock |
| AppShell.MirrorThenResume | App.tsx:208-214 | progress saved and resumed later comes back whole, except that the clock gains 15 minutes less the original duration |
| AppShell.WiredNeverStartsQuiz | App.tsx:367-435 | no button alone opens the quiz or generating screen |
| AppShell.ReattemptKeepsOriginal | App.tsx:234-252 | a reattempt with a new id keeps the original attempt and appends one entry |
| AppShell.CompleteTwiceOneEntry | App.tsx:139-152 | completing the same attempt twice leaves one entry for it |
| AppShell.App.constructor | App.tsx:15-24 | the landing page with no quiz |
| AppShell.App.RestoreSession | App.tsx:46-70 | the state becomes `ColdStart` of the saved snapshot; the error messages and the key-source line are unchanged |
| AppShell.App.PersistSession | App.tsx:72-83 | the snapshot slot becomes `Persisted` |
| AppShell.App.UpdateHistory | App.tsx:85-93 | the history slot becomes `UpdatedHistory` |
| AppShell.App.BeginGeneration | App.tsx:95-106 | the key-source notice, the generating screen, both errors cleared |
| AppShell.App.FinishGeneration | App.tsx:107-136 | a quiz with questions is titled, recorded and started. Otherwise the report is `Classify`'d into the critical logs or the error, and setup is shown |
| AppShell.App.HandleQuizComplete | App.tsx:139-152 | without an active quiz nothing. Otherwise the completed attempt is upserted, the checkpoint removed and the results shown; the messages, the notice and the key-source line are unchanged |
| AppShell.App.ResetApp | App.tsx:154-162 | setup with no quiz, no snapshot and no checkpoint; the error is cleared, and the critical log, the notice and the key-source line are unchanged |
| AppShell.App.HandleBackToLanding | App.tsx:164-167 | the same, on the landing page, with the same fields unchanged |
| AppShell.App.HandleQuizExit | App.tsx:169-178 | discarding removes the attempt's entries, unless the list is unreadable or the write fails; saving keeps them; both reset, leaving the critical log, the notice and the key-source line unchanged |
| AppShell.App.ClearHistory | App.tsx:180-183 | the history is removed and setup shown; nothing else changes |
| AppShell.App.HandleDeleteHistoryItem | App.tsx:185-192 | the id's entries are removed and the history shown; an unreadable list or failing write changes nothing at all; the messages, the notice and the key-source line never change |
| AppShell.App.HandleResumeQuiz | App.tsx:194-232 | an in-progress attempt reopens in the quiz from its checkpoint; a completed one opens the results; the messages, the notice and the key-source line are unchanged |
| AppShell.App.HandleReattempt | App.tsx:234-252 | with questions, a new in-progress attempt with the same questions is recorded and started and the checkpoint dropped; the messages, the notice and the key-source line are unchanged |
| AppShell.App.DismissNotification | App.tsx:401 | the resume notice closes and nothing else changes |
| AppShell.App.Navigate | App.tsx:367-435 | a wired button changes only the screen; every other field is unchanged |

## Left out

- Rendering, styling, scrolling, focus, animation, the contact dialog, the PDF export and the landing, help, menu and spinner screens: presentation only.
- The prompt text, the response schema and the model name sent to the service: fixed strings that no control flow depends on. The request id and timestamp are parameters.
- The remote service, the key validator and `JSON.parse`/`JSON.stringify`: parameters (`call`, `decode`, `keyIsValid`) or whole-value slots in the store.
- `String.prototype.trim` and `toLowerCase`: modelled on ASCII whitespace and ASCII letters; Unicode whitespace and case folding are not modelled.
- React's asynchronous state updates, stale closures and effect ordering: every handler is one atomic step on the current state. The timer's `handleSubmit` from the first render, which reads the initial answers, is therefore not modelled.
- The ordering of several FileReader callbacks: each read's end is a separate call.
- Storage writes outside `try` blocks are assumed to succeed (the checkpoint write, `saveKeys`, the remembered name).
- HistoryView.Score: rounds the exact ratio `correct / total` half up, whereas the source rounds the floating-point product `(correct / total) * 100`, which can fall just below a half. For 23 correct out of 40 the product is 57.49999999999999, so the source shows 57 and the model 58. The same holds for 46 of 80, 69 of 120, 92 of 160, and 29, 57, 113 and 115 of 200. None of these crosses a band boundary (50, 70, 90). HistoryView.StatsOf, HistoryView.CalculateScore, HistoryView.GetStats and ResultsView.Stats inherit this difference.
- HistoryView.Classify: a numeric answer to a short-answer question is counted wrong, whereas the source's `trim` call on a number throws.
- ReviewView.IsCorrect: a numeric answer to a short-answer question is shown incorrect, whereas the source's `trim` call on a number throws.
- QuizInterface.RestoreFrom: only a checkpoint of the shape the app writes is modelled; other JSON values are unreadable slots.
- SetupForm.Submission: the read file's `name` is sent along with its data but dropped by the configuration's type, so it is not modelled.
- SetupForm.LoadEndAsWritten: `reader.result` after a failed read is `null`; it is modelled as empty data.
- SetupForm.Form.OnLoadEnd: runs the corrected handler `LoadEnd`, so in the class a failed read stays failed and is not sent; the handler as written at `components/SetupForm.tsx:124` is `LoadEndAsWritten`, and `FailedReadSentAsWritten` shows what it does to such a file. `Form.HandleSubmit` therefore sends exactly the files that were read in the corrected form, not in the program as written.

## Findings

| source | as written | input that shows it | evidently intended | confidence | as-written member | corrected member |
|---|---|---|---|---|---|---|
| components/SetupForm.tsx:124-125 | `onloadend` marks the file `success` with `reader.result` as its data, whatever happened | a file whose read fails: the browser fires `error` and then `loadend` with a `null` result, so the file ends `success` with no data and is sent | a failed read stays `error` and is not sent | medium, not executed | SetupForm.FailedReadSentAsWritten | SetupForm.FailedReadDropped |

The class `SetupForm.Form` uses the corrected handler `SetupForm.LoadEnd`. In the source, the `null` data of such a file reaches `file.data.split` in `services/geminiService.ts:134`. That call throws, so every generation fails until the file is removed.

## Notes on the code as written

- Resuming an unfinished attempt from the history always restarts the clock from 15 minutes. It subtracts the time already taken from 900 seconds, whatever the attempt's original duration (`App.tsx:202`, `App.tsx:212`). `AppShell.MirrorThenResume` states the resulting shift. An attempt longer than fifteen minutes with more than fifteen minutes used therefore reopens with a clock below zero. The display then shows negative fields (`QuizInterface.NegativeClockShown`) until the first tick submits the quiz. That tick runs the `handleSubmit` of the first render (`QuizInterface.tsx:75-87`, `QuizInterface.tsx:149-152`), which sends no answers and 0 seconds taken, so the resumed attempt is recorded as completed with its answers lost.
- Leaving a quiz with "save" still removes the in-quiz checkpoint (through `resetApp`). Only the history entry keeps the progress.
- A response that cannot be parsed ends the failover loop with the critical report, like any other non-quota failure.
- The results and review screens judge an unanswered short-answer question without a canonical answer differently. The score counts it as skipped; the review shows it as correct.
