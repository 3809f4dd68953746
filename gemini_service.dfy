/** The generation request orchestrator (services/geminiService.ts): choose
    the key list, assemble the request parts, and try the keys strictly in
    order, moving on only after a rate-limit or quota failure, until one
    attempt yields parseable quiz content. Every failed attempt is logged;
    when the loop gives up, the error carries the log behind the marker
    `CRITICAL_FAILURE_LOGS::`.

    The remote service is a parameter `call` from (attempt number, key,
    parts) to an outcome, and JSON decoding a parameter `decode`. */
module GeminiService {
  import opened Strings
  import opened QuizTypes
  import Storage

  // The messages are written in short pieces so that the verifier can
  // inspect their characters.
  const CriticalMarker: string := "CRITICAL_FAILURE_LOGS::"
  const NoKeysMessage: string :=
    "No API keys " + "found. Please " + "add a key in " + "the settings or "
    + "configure the " + "system " + "environment."
  const EmptyResponseMessage: string := "Empty " + "response " + "from AI"
  const UnprocessableMessage: string :=
    "The AI response " + "could not be " + "processed. " + "Please try "
    + "simplifying " + "your content."
  const UnknownErrorMessage: string := "Unknown error"

  /** One part of the request body: text, or an inline base64 attachment. */
  datatype Part = TextPart(text: string) | InlinePart(data: string, mimeType: string)

  /** What one call to the service does: answer with response text (which
      may be empty), or throw an error whose message may be empty. */
  datatype CallOutcome = Responded(text: string) | Threw(message: string)

  /** One attempt as the loop sees it after its `try` block. */
  datatype Attempt = Success(data: GeneratedQuizData) | Failure(message: string) {
    function Message(): string {
      if Failure? then message else ""
    }
  }

  /** What a generation call returns or throws. */
  datatype Generation = Generated(data: GeneratedQuizData) | Failed(message: string)

  /** The outcome together with the failure log the loop accumulated. */
  datatype Run = Run(outcome: Generation, logs: seq<string>)

  // ---------------------------------------------------------------------
  // Key source

  /** `getAvailableKeys`: the stored user keys when they form a non-empty
      list; otherwise the comma-separated environment value, each piece
      trimmed and empty pieces dropped; otherwise no keys. */
  function GetAvailableKeys(stored: Storage.Slot<seq<string>>, env: Option<string>): (keys: seq<string>)
    ensures stored.Stored? && |stored.value| > 0 ==> keys == stored.value
    ensures !(stored.Stored? && |stored.value| > 0) && env.Some? ==> keys == EnvKeys(env.value)
    ensures !(stored.Stored? && |stored.value| > 0) && env.None? ==> keys == []
  {
    if stored.Stored? && |stored.value| > 0 then stored.value
    else if env.Some? && env.value != "" then EnvKeys(env.value)
    else []
  }

  /** The trimmed, non-empty pieces, in order. */
  function CleanKeys(pieces: seq<string>): (keys: seq<string>)
    ensures |keys| <= |pieces|
    ensures forall i :: 0 <= i < |keys| ==> keys[i] != "" && Trimmed(keys[i])
  {
    if pieces == [] then []
    else
      var t := Trim(pieces[0]);
      (if t == "" then [] else [t]) + CleanKeys(pieces[1..])
  }

  lemma {:induction false} CleanKeysConcat(a: seq<string>, b: seq<string>)
    ensures CleanKeys(a + b) == CleanKeys(a) + CleanKeys(b)
  {
    if a != [] {
      assert (a + b)[1..] == a[1..] + b;
      CleanKeysConcat(a[1..], b);
    } else {
      assert a + b == b;
    }
  }

  /** `envKey.split(',').map(k => k.trim()).filter(k => k.length > 0)` */
  function EnvKeys(env: string): (keys: seq<string>)
    ensures forall i :: 0 <= i < |keys| ==> keys[i] != "" && Trimmed(keys[i])
  {
    CleanKeys(Split(env, ","))
  }

  /** The environment keys of `a,b` are those of `a` followed by those of
      `b`: order is kept and each comma-separated piece stands alone. */
  lemma EnvKeysConcat(a: string, b: string)
    ensures EnvKeys(a + "," + b) == EnvKeys(a) + EnvKeys(b)
  {
    SplitConcat(a, ',', b);
    CleanKeysConcat(Split(a, ","), Split(b, ","));
  }

  /** A single comma-free value yields its trimmed self, or nothing when blank. */
  lemma EnvKeysSingle(e: string)
    requires ',' !in e
    ensures EnvKeys(e) == if AllSpace(e) then [] else [Trim(e)]
  {
    SplitWithout(e, ',');
  }

  // ---------------------------------------------------------------------
  // Request parts

  /** The first part, which makes every request body unique. */
  function SessionTag(requestId: string, timestamp: string): string {
    "UNIQUE_SESSION_IDENTIFIER: " + requestId + " [" + timestamp + "]"
  }

  /** `file.data.split(',')[1] || file.data`: the second comma-separated
      piece of a data URL, or the whole string when that piece is missing
      or empty. */
  function CleanBase64(data: string): (r: string)
    ensures r == data || (r != "" && ',' !in r)
  {
    var pieces := Split(data, ",");
    if |pieces| > 1 && pieces[1] != "" then
      NoCommaInPiece(pieces[1]);
      pieces[1]
    else data
  }

  lemma NoCommaInPiece(p: string)
    requires !Contains(p, ",")
    ensures ',' !in p
  {
    forall j | 0 <= j < |p| ensures p[j] != ',' {
      assert !OccursAt(p, ",", j);
      assert p[j..j + 1] == [p[j]];
    }
  }

  /** Data with a comma is `header,payload` followed by nothing or by the
      rest from the second comma on: it is reduced to `payload`, the piece
      between the first two commas, unless that piece is empty. */
  lemma CleanBase64DataUrl(header: string, payload: string, rest: string)
    requires ',' !in header && ',' !in payload
    requires rest == "" || rest[0] == ','
    ensures var data := header + "," + payload + rest;
            CleanBase64(data) == if payload != "" then payload else data
  {
    Assoc(header + ",", payload, rest);
    SplitAfterFirst(header, ',', payload + rest);
    if rest == "" {
      assert payload + rest == payload;
      SplitWithout(payload, ',');
    } else {
      assert payload + rest == payload + [','] + rest[1..];
      SplitAfterFirst(payload, ',', rest[1..]);
    }
  }

  /** Text without a comma is sent as it is. */
  lemma CleanBase64Plain(data: string)
    requires ',' !in data
    ensures CleanBase64(data) == data
  {
    SplitWithout(data, ',');
  }

  /** The shape of the request body: the session tag, then the content
      text if it is non-empty, then one inline part per upload, in order. */
  predicate IsRequestBody(parts: seq<Part>, tag: string, content: string, uploads: seq<FileUpload>) {
    var base := if content != "" then 2 else 1;
    && |parts| == base + |uploads|
    && parts[0] == TextPart(tag)
    && (content != "" ==> parts[1] == TextPart(content))
    && forall i :: 0 <= i < |uploads| ==>
         parts[base + i] == InlinePart(CleanBase64(uploads[i].data), uploads[i].mimeType)
  }

  /** Builds the request parts by successive pushes. */
  method BuildParts(tag: string, content: string, uploads: seq<FileUpload>) returns (parts: seq<Part>)
    ensures IsRequestBody(parts, tag, content, uploads)
    ensures |parts| == 1 + (if content != "" then 1 else 0) + |uploads|
  {
    parts := [TextPart(tag)];
    if content != "" {
      parts := parts + [TextPart(content)];
    }
    var base := |parts|;
    for i := 0 to |uploads|
      invariant |parts| == base + i
      invariant parts[0] == TextPart(tag)
      invariant content != "" ==> parts[1] == TextPart(content)
      invariant forall j :: 0 <= j < i ==>
                  parts[base + j] == InlinePart(CleanBase64(uploads[j].data), uploads[j].mimeType)
    {
      parts := parts + [InlinePart(CleanBase64(uploads[i].data), uploads[i].mimeType)];
    }
  }

  // ---------------------------------------------------------------------
  // Response handling

  /** `text.replace(/pat/g, '')` for a literal pattern: removes the leftmost
      non-overlapping occurrences. */
  function RemoveAll(s: string, pat: string): (r: string)
    requires pat != []
    ensures |r| <= |s|
    decreases |s|
  {
    if |s| < |pat| then s
    else if s[..|pat|] == pat then RemoveAll(s[|pat|..], pat)
    else [s[0]] + RemoveAll(s[1..], pat)
  }

  /** Text that cannot start the pattern passes through untouched. */
  lemma {:induction false} RemoveAllSkips(x: string, y: string, pat: string)
    requires pat != [] && pat[0] !in x
    ensures RemoveAll(x + y, pat) == x + RemoveAll(y, pat)
    decreases |x|
  {
    var s := x + y;
    if x == [] {
      assert s == y;
    } else if |s| < |pat| {
      assert RemoveAll(y, pat) == y;
    } else {
      assert s[..|pat|][0] == x[0];
      assert s[..|pat|] != pat;
      assert s[1..] == x[1..] + y;
      RemoveAllSkips(x[1..], y, pat);
      assert RemoveAll(s, pat) == [x[0]] + (x[1..] + RemoveAll(y, pat));
      assert [x[0]] + x[1..] == x;
    }
  }

  /** `parseJSON`'s clean-up: drop every "```json" and then every "```",
      then trim. */
  function StripFences(text: string): string {
    Trim(RemoveAll(RemoveAll(text, "```json"), "```"))
  }

  /** A payload without back-quotes, wrapped in a json code fence, comes
      back trimmed. */
  lemma StripFencesOfFenced(body: string)
    requires '`' !in body
    ensures StripFences("```json" + body + "```") == Trim(body)
  {
    var s := "```json" + body + "```";
    assert s[..7] == "```json";
    assert s[7..] == body + "```";
    RemoveAllSkips(body, "```", "```json");
    assert RemoveAll("```", "```json") == "```";
    RemoveAllSkips(body, "```", "```");
    assert RemoveAll("```", "```") == "";
    assert body + "" == body;
  }

  /** Text without back-quotes is only trimmed. */
  lemma StripFencesOfPlain(text: string)
    requires '`' !in text
    ensures StripFences(text) == Trim(text)
  {
    RemoveAllSkips(text, "", "```json");
    RemoveAllSkips(text, "", "```");
    assert text + "" == text;
  }

  /** The body of one `try`: an error's message (or "Unknown error"), an
      empty response, an unparseable response, or the decoded quiz. */
  function AttemptOf(o: CallOutcome, decode: string -> Option<GeneratedQuizData>): (a: Attempt)
    ensures a.Failure? ==> a.message != ""
    ensures a.Success? <==> o.Responded? && o.text != "" && decode(StripFences(o.text)).Some?
  {
    match o
    case Threw(m) => Failure(if m == "" then UnknownErrorMessage else m)
    case Responded(text) =>
      if text == "" then Failure(EmptyResponseMessage)
      else
        match decode(StripFences(text))
        case Some(d) => Success(d)
        case None => Failure(UnprocessableMessage)
  }

  /** The failure messages that keep the loop going. */
  predicate IsQuotaError(message: string) {
    Contains(message, "429") || Contains(message, "quota")
  }

  /** A message with neither a `4` nor a `q` is not a quota message. */
  lemma NotQuotaWithout(message: string)
    requires '4' !in message && 'q' !in message
    ensures !IsQuotaError(message)
  {
    NotContainsWithoutFirstChar(message, "429");
    NotContainsWithoutFirstChar(message, "quota");
  }

  /** The messages the client raises itself are never quota messages, so an
      empty or unparseable response ends the loop like any other error. */
  lemma OwnMessagesAreNotQuota()
    ensures !IsQuotaError(EmptyResponseMessage)
    ensures !IsQuotaError(UnprocessableMessage)
    ensures !IsQuotaError(UnknownErrorMessage)
  {
    EmptyResponseAvoidsQuotaChars();
    UnprocessableAvoidsQuotaChars();
    NotQuotaWithout(EmptyResponseMessage);
    NotQuotaWithout(UnprocessableMessage);
    NotQuotaWithout(UnknownErrorMessage);
  }

  lemma EmptyResponseAvoidsQuotaChars()
    ensures '4' !in EmptyResponseMessage
    ensures 'q' !in EmptyResponseMessage
  {
  }

  lemma UnprocessableAvoidsQuotaChars()
    ensures '4' !in UnprocessableMessage
    ensures 'q' !in UnprocessableMessage
  {
    var pieces := ["The AI response ", "could not be ", "processed. ", "Please try ", "simplifying ", "your content."];
    forall i | 0 <= i < |pieces| ensures '4' !in pieces[i] && 'q' !in pieces[i] {
    }
    assert UnprocessableMessage == pieces[0] + pieces[1] + pieces[2] + pieces[3] + pieces[4] + pieces[5];
  }

  /** The attempts, one per key, in key order. */
  function AttemptsOf(keys: seq<string>, parts: seq<Part>,
                      call: (nat, string, seq<Part>) -> CallOutcome,
                      decode: string -> Option<GeneratedQuizData>): (a: seq<Attempt>)
    ensures |a| == |keys|
  {
    seq(|keys|, i requires 0 <= i < |keys| => AttemptOf(call(i, keys[i], parts), decode))
  }

  // ---------------------------------------------------------------------
  // The failover loop

  /** Attempt `i` failed with a quota message and another key remains. */
  predicate Continues(a: seq<Attempt>, i: nat)
    requires i < |a|
  {
    a[i].Failure? && IsQuotaError(a[i].message) && i < |a| - 1
  }

  /** The attempt at which the loop stops, starting from attempt `i`. */
  function StopIndex(a: seq<Attempt>, i: nat): (k: nat)
    requires i < |a|
    ensures i <= k < |a|
    ensures forall j :: i <= j < k ==> Continues(a, j)
    ensures !Continues(a, k)
    decreases |a| - i
  {
    if Continues(a, i) then StopIndex(a, i + 1) else i
  }

  /** The loop stops at the first attempt that does not continue. */
  lemma {:induction false} StopIndexIs(a: seq<Attempt>, i: nat, k: nat)
    requires i <= k < |a|
    requires forall j :: i <= j < k ==> Continues(a, j)
    requires !Continues(a, k)
    ensures StopIndex(a, i) == k
    decreases k - i
  {
    if i < k {
      StopIndexIs(a, i + 1, k);
    }
  }

  /** `Key {i+1} Failure: {message}` */
  function LogLine(i: nat, message: string): string {
    "Key " + NatToString(i + 1) + " Failure: " + message
  }

  /** The log lines of the first `n` attempts. */
  function FailureLog(a: seq<Attempt>, n: nat): (log: seq<string>)
    requires n <= |a|
    ensures |log| == n
    ensures forall j :: 0 <= j < n ==> log[j] == LogLine(j, a[j].Message())
  {
    seq(n, j requires 0 <= j < n => LogLine(j, a[j].Message()))
  }

  /** What `generateQuizFromContent` does with the given attempts: with no
      key it fails with the no-keys message and tries nothing; otherwise the
      log has one numbered line per failed attempt, every failure but the
      last was a quota failure, and the run ends either with the first
      successful attempt's quiz or with the marker followed by the
      newline-joined log, the last failure being a non-quota one or the last
      key's. */
  function Generate(a: seq<Attempt>): (r: Run)
    ensures |a| == 0 ==> r == Run(Failed(NoKeysMessage), [])
    ensures |a| > 0 ==> |r.logs| <= |a|
    ensures forall j :: 0 <= j < |r.logs| ==> a[j].Failure? && r.logs[j] == LogLine(j, a[j].message)
    ensures r.outcome.Generated? ==>
              |r.logs| < |a| && a[|r.logs|] == Success(r.outcome.data)
              && forall j :: 0 <= j < |r.logs| ==> IsQuotaError(a[j].message)
    ensures |a| > 0 && r.outcome.Failed? ==>
              && r.outcome.message == CriticalMarker + Join(r.logs, "\n")
              && |r.logs| >= 1
              && (forall j :: 0 <= j < |r.logs| - 1 ==> IsQuotaError(a[j].message))
              && (!IsQuotaError(a[|r.logs| - 1].message) || |r.logs| == |a|)
  {
    if |a| == 0 then Run(Failed(NoKeysMessage), [])
    else
      var k := StopIndex(a, 0);
      assert forall j :: 0 <= j < k ==> a[j].Failure? && IsQuotaError(a[j].message) by {
        forall j | 0 <= j < k ensures a[j].Failure? && IsQuotaError(a[j].message) {
          assert Continues(a, j);
        }
      }
      if a[k].Success? then Run(Generated(a[k].data), FailureLog(a, k))
      else
        var logs := FailureLog(a, k + 1);
        Run(Failed(CriticalMarker + Join(logs, "\n")), logs)
  }

  /** The run ends at attempt `k`, after quota failures on every earlier key. */
  lemma {:induction false} GenerateStopsAt(a: seq<Attempt>, k: nat)
    requires k < |a| && !Continues(a, k)
    requires forall j :: 0 <= j < k ==> Continues(a, j)
    ensures a[k].Success? ==> Generate(a) == Run(Generated(a[k].data), FailureLog(a, k))
    ensures a[k].Failure? ==>
              Generate(a) == Run(Failed(CriticalMarker + Join(FailureLog(a, k + 1), "\n")), FailureLog(a, k + 1))
  {
    StopIndexIs(a, 0, k);
  }

  /** `generateQuizFromContent`: reads the keys, assembles the parts, and
      runs the failover loop. Its outcome and log are those of `Generate`
      on the attempts the service produces for these parts. */
  method GenerateQuizFromContent(config: QuizConfig, storedKeys: Storage.Slot<seq<string>>, env: Option<string>,
                                 requestId: string, timestamp: string,
                                 call: (nat, string, seq<Part>) -> CallOutcome,
                                 decode: string -> Option<GeneratedQuizData>)
    returns (outcome: Generation, errorLogs: seq<string>, parts: seq<Part>)
    ensures var keys := GetAvailableKeys(storedKeys, env);
            && (keys == [] ==> parts == [])
            && (keys != [] ==> IsRequestBody(parts, SessionTag(requestId, timestamp), config.content, config.fileUploads))
            && Run(outcome, errorLogs) == Generate(AttemptsOf(keys, parts, call, decode))
  {
    var keys := GetAvailableKeys(storedKeys, env);
    if |keys| == 0 {
      return Failed(NoKeysMessage), [], [];
    }
    parts := BuildParts(SessionTag(requestId, timestamp), config.content, config.fileUploads);
    outcome, errorLogs := TryKeys(keys, parts, call, decode);
  }

  /** The `for` loop over the keys. */
  method TryKeys(keys: seq<string>, parts: seq<Part>,
                 call: (nat, string, seq<Part>) -> CallOutcome,
                 decode: string -> Option<GeneratedQuizData>)
    returns (outcome: Generation, errorLogs: seq<string>)
    requires keys != []
    ensures Run(outcome, errorLogs) == Generate(AttemptsOf(keys, parts, call, decode))
  {
    ghost var a := AttemptsOf(keys, parts, call, decode);
    errorLogs := [];
    var i := 0;
    while i < |keys|
      invariant 0 <= i < |keys|
      invariant forall j :: 0 <= j < i ==> Continues(a, j)
      invariant errorLogs == FailureLog(a, i)
      decreases |keys| - i
    {
      var message;
      var response := call(i, keys[i], parts);
      assert a[i] == AttemptOf(response, decode);
      match response {
        case Responded(text) =>
          if text == "" {
            message := EmptyResponseMessage;
          } else {
            var parsed := decode(StripFences(text));
            if parsed.Some? {
              assert a[i] == Success(parsed.value);
              GenerateStopsAt(a, i);
              return Generated(parsed.value), errorLogs;
            }
            message := UnprocessableMessage;
          }
        case Threw(m) =>
          message := if m == "" then UnknownErrorMessage else m;
      }
      assert a[i] == Failure(message);
      errorLogs := errorLogs + [LogLine(i, message)];
      assert errorLogs == FailureLog(a, i + 1);
      if IsQuotaError(message) && i < |keys| - 1 {
        ContinuesExtend(a, i);
        i := i + 1;
        continue;
      }
      assert !Continues(a, i);
      GenerateStopsAt(a, i);
      break;
    }
    outcome := Failed(CriticalMarker + Join(errorLogs, "\n"));
  }

  lemma ContinuesExtend(a: seq<Attempt>, i: nat)
    requires i < |a| && Continues(a, i)
    requires forall j :: 0 <= j < i ==> Continues(a, j)
    ensures forall j :: 0 <= j < i + 1 ==> Continues(a, j)
  {
  }

  // ---------------------------------------------------------------------
  // Properties of the loop

  /** No key: the no-keys error, which is not a critical failure. */
  lemma NoKeysFailsFast()
    ensures Generate([]) == Run(Failed(NoKeysMessage), [])
    ensures !Contains(NoKeysMessage, CriticalMarker)
  {
    NotContainsWithoutFirstChar(NoKeysMessage, CriticalMarker);
  }

  /** Quota failures on the first `k` keys and success on key `k`: the
      quiz of key `k` is returned, after `k` log lines. */
  lemma FirstSuccessAfterQuotaFailures(a: seq<Attempt>, k: nat)
    requires k < |a| && a[k].Success?
    requires forall j :: 0 <= j < k ==> a[j].Failure? && IsQuotaError(a[j].message)
    ensures Generate(a) == Run(Generated(a[k].data), FailureLog(a, k))
  {
    StopIndexIs(a, 0, k);
  }

  /** Quota failures on every key: the critical error with one line per key. */
  lemma AllQuotaFailuresExhaustKeys(a: seq<Attempt>)
    requires |a| > 0
    requires forall j :: 0 <= j < |a| ==> a[j].Failure? && IsQuotaError(a[j].message)
    ensures Generate(a).outcome == Failed(CriticalMarker + Join(FailureLog(a, |a|), "\n"))
    ensures |Generate(a).logs| == |a|
  {
    StopIndexIs(a, 0, |a| - 1);
  }

  /** A non-quota failure on key `i` after quota failures: the critical
      error with `i + 1` lines, and the keys after `i` are never tried, so
      what they would have answered does not matter. */
  lemma NonQuotaFailureStops(a: seq<Attempt>, b: seq<Attempt>, i: nat)
    requires i < |a| && a[i].Failure? && !IsQuotaError(a[i].message)
    requires forall j :: 0 <= j < i ==> a[j].Failure? && IsQuotaError(a[j].message)
    requires i < |b| && b[..i + 1] == a[..i + 1]
    ensures Generate(a).outcome == Failed(CriticalMarker + Join(FailureLog(a, i + 1), "\n"))
    ensures |Generate(a).logs| == i + 1
    ensures Generate(b) == Generate(a)
  {
    StopIndexIs(a, 0, i);
    forall j | 0 <= j <= i ensures b[j] == a[j] {
      assert b[j] == b[..i + 1][j];
    }
    StopIndexIs(b, 0, i);
    assert FailureLog(b, i + 1) == FailureLog(a, i + 1);
  }

  /** An empty or unparseable response on key `i` after quota failures is
      logged and ends in the critical error, like a service error. */
  lemma UnusableResponseIsCritical(a: seq<Attempt>, i: nat)
    requires i < |a| && (a[i] == Failure(EmptyResponseMessage) || a[i] == Failure(UnprocessableMessage))
    requires forall j :: 0 <= j < i ==> a[j].Failure? && IsQuotaError(a[j].message)
    ensures Generate(a).outcome.Failed?
    ensures Generate(a).logs == FailureLog(a, i + 1)
    ensures Generate(a).logs[i] == LogLine(i, a[i].message)
  {
    OwnMessagesAreNotQuota();
    NonQuotaFailureStops(a, a, i);
  }
}
