/** The client of the remote trivia service: the spacing of rate-limited calls, the check of
    the response code, the session token, and the trimming of fetched questions. The clock is
    an integer number of milliseconds passed in by the caller, sleeping advances it, and each
    response body arrives as a value. */
module ApiAccess {
  import opened Wrappers
  import opened Helpers
  import opened Text

  /** A question as the service returns it. */
  datatype ApiQuestion = ApiQuestion(
    question: string,
    difficulty: string,
    category: string,
    qtype: string,
    correctAnswer: string,
    incorrectAnswers: seq<string>)

  /** A category as the service lists it; its id arrives as a string. */
  datatype RemoteCategory = RemoteCategory(name: string, id: string)

  /** The count object of the question-count endpoint. */
  datatype CountInfo = CountInfo(totalQuestionCount: Option<int>)

  /** A parsed response body: the fields the client reads, each of which may be absent. */
  datatype Payload = Payload(
    responseCode: Option<int>,
    results: Option<seq<ApiQuestion>>,
    token: Option<string>,
    categoryQuestionCount: Option<CountInfo>,
    triviaCategories: Option<seq<RemoteCategory>>)

  /** The endpoints the client calls, with the query parameters their URLs carry. */
  datatype Endpoint =
    | QuestionBatch(amount: int, categoryId: int, token: Option<string>)
    | QuestionCount(categoryId: int)
    | CategoryList
    | TokenRequest

  /** One call as it went out: where, with which flags, and when it was sent. */
  datatype Request = Request(endpoint: Endpoint, validate: bool, useRateLimit: bool, sentAt: int)

  /** Errors the client raises: a response code other than 0, with the code and its
      description when the table has one, or a body without the field the caller reads. */
  datatype ApiError = Rejected(code: Option<int>, description: Option<string>) | MalformedPayload

  /** `respectRateLimit`: how long a rate-limited call at `now` sleeps when the last one
      finished at `last`. */
  function WaitTime(now: int, last: int): (w: int)
    ensures w >= 0
    ensures w > 0 <==> now - last < API_HUG_MS
    ensures w > 0 ==> now + w == last + API_HUG_MS
  {
    var waitTime := API_HUG_MS - (now - last);
    if waitTime > 0 then waitTime else 0
  }

  /** The wait is the shortest one that leaves the spacing between `last` and the call. */
  lemma WaitIsLeast(now: int, last: int, w: int)
    requires w >= 0 && now + w >= last + API_HUG_MS
    ensures WaitTime(now, last) <= w
  {
  }

  /** After the wait, at least the spacing has passed since `last`. */
  lemma WaitLeavesSpacing(now: int, last: int)
    ensures now + WaitTime(now, last) >= last + API_HUG_MS
  {
  }

  /** The initial timestamp lies one spacing before start-up, so a rate-limited call made at
      or after start-up does not wait. */
  lemma FirstCallDoesNotWait(startTime: int, now: int)
    requires now >= startTime
    ensures WaitTime(now, startTime - API_HUG_MS) == 0
  {
  }

  /** When a call at `now` is sent: after its wait if it is rate-limited, at once otherwise. */
  function SentAt(now: int, last: int, useRateLimit: bool): (t: int)
    ensures t >= now
    ensures useRateLimit ==> t >= last + API_HUG_MS
    ensures !useRateLimit ==> t == now
  {
    if useRateLimit then now + WaitTime(now, last) else now
  }

  /** `validateResult`: a response passes when its code is 0; otherwise the error carries the
      code and the table's description of it. */
  function ValidateResult(p: Payload): (o: Outcome<ApiError>)
    ensures o.Pass? <==> p.responseCode == Some(0)
    ensures o.Fail? ==> o.error == Rejected(p.responseCode, Describe(p.responseCode))
  {
    if p.responseCode != Some(0) then Fail(Rejected(p.responseCode, Describe(p.responseCode))) else Pass
  }

  /** A rejected response is described exactly when its code is one of the table's error codes
      1 to 5; a missing code or any other number gets no description. */
  lemma RejectionDescribedIffKnownCode(p: Payload)
    requires ValidateResult(p).Fail?
    ensures ValidateResult(p).error.description.Some? <==> p.responseCode.Some? && 1 <= p.responseCode.value <= 5
  {
  }

  /** A rejection with code 4 says the session token is spent. */
  lemma TokenEmptyRejection(p: Payload)
    requires p.responseCode == Some(4)
    ensures ValidateResult(p) == Fail(Rejected(Some(4), Some(MeaningText(TokenEmpty))))
  {
  }

  /** The trimmed form of every incorrect answer, in order. */
  function TrimAll(answers: seq<string>): (r: seq<string>)
    ensures |r| == |answers|
    ensures forall i :: 0 <= i < |answers| ==> r[i] == Trim(answers[i]) && IsTrimmed(r[i])
  {
    seq(|answers|, i requires 0 <= i < |answers| => Trim(answers[i]))
  }

  /** One result as `get_questions` leaves it: the question, the correct answer and each
      incorrect answer trimmed, the number of incorrect answers kept, and difficulty, category
      and type left alone. */
  function TrimQuestion(q: ApiQuestion): (t: ApiQuestion)
    ensures t.question == Trim(q.question) && IsTrimmed(t.question)
    ensures t.correctAnswer == Trim(q.correctAnswer) && IsTrimmed(t.correctAnswer)
    ensures |t.incorrectAnswers| == |q.incorrectAnswers|
    ensures forall k :: 0 <= k < |q.incorrectAnswers| ==>
              t.incorrectAnswers[k] == Trim(q.incorrectAnswers[k]) && IsTrimmed(t.incorrectAnswers[k])
    ensures t.difficulty == q.difficulty && t.category == q.category && t.qtype == q.qtype
  {
    q.(question := Trim(q.question), correctAnswer := Trim(q.correctAnswer),
       incorrectAnswers := TrimAll(q.incorrectAnswers))
  }

  /** Trimming a result a second time changes nothing. */
  lemma TrimQuestionIdempotent(q: ApiQuestion)
    ensures TrimQuestion(TrimQuestion(q)) == TrimQuestion(q)
  {
    TrimIdempotent(q.question);
    TrimIdempotent(q.correctAnswer);
    forall k | 0 <= k < |q.incorrectAnswers| ensures Trim(Trim(q.incorrectAnswers[k])) == Trim(q.incorrectAnswers[k]) {
      TrimIdempotent(q.incorrectAnswers[k]);
    }
  }

  /** The loop of `get_questions` over the fetched results: each result rewritten to its
      trimmed form, in place and in order. */
  method TrimResults(results: seq<ApiQuestion>) returns (trimmed: seq<ApiQuestion>)
    ensures |trimmed| == |results|
    ensures forall i :: 0 <= i < |results| ==> trimmed[i] == TrimQuestion(results[i])
  {
    trimmed := results;
    for i := 0 to |results|
      invariant |trimmed| == |results|
      invariant forall k :: 0 <= k < i ==> trimmed[k] == TrimQuestion(results[k])
      invariant forall k :: i <= k < |results| ==> trimmed[k] == results[k]
    {
      trimmed := trimmed[i := TrimQuestion(trimmed[i])];
    }
  }

  /** The body `get_questions` returns: a body without results as it came; otherwise only the
      results change, their number kept and each the trimmed form of the one fetched. */
  function TrimmedPayload(p: Payload): (t: Payload)
    ensures t.results.Some? <==> p.results.Some?
    ensures t.(results := p.results) == p
    ensures p.results.Some? ==> |t.results.value| == |p.results.value|
    ensures p.results.Some? ==> forall i :: 0 <= i < |p.results.value| ==>
              t.results.value[i] == TrimQuestion(p.results.value[i])
  {
    match p.results
    case None => p
    case Some(rs) => p.(results := Some(seq(|rs|, i requires 0 <= i < |rs| => TrimQuestion(rs[i]))))
  }

  /** The client's state: the end of the last successful rate-limited call, the session token
      URLs carry, and the calls made so far. */
  class OpenTdbClient {
    var lastCalledApiDate: int
    var token: Option<string>
    var requests: seq<Request>

    /** The state when the module is loaded at `startTime`: the timestamp one spacing back
        and the empty token, which the load-time `reset_token` call then replaces. */
    constructor (startTime: int)
      ensures lastCalledApiDate == startTime - API_HUG_MS
      ensures token == Some("")
      ensures requests == []
    {
      lastCalledApiDate := startTime - API_HUG_MS;
      token := Some("");
      requests := [];
    }

    /** `apiCall`: a rate-limited call first sleeps out the spacing; the call is sent, its
        body `response` arrives `fetchTime` later and is validated when asked; only a
        rate-limited call that got this far records the time it finished. */
    method ApiCall(endpoint: Endpoint, validate: bool, useRateLimit: bool, now: int, fetchTime: nat, response: Payload)
      returns (r: Result<Payload, ApiError>)
      modifies this
      ensures requests == old(requests) + [Request(endpoint, validate, useRateLimit, SentAt(now, old(lastCalledApiDate), useRateLimit))]
      ensures validate && ValidateResult(response).Fail? ==> r == Err(ValidateResult(response).error)
      ensures !(validate && ValidateResult(response).Fail?) ==> r == Ok(response)
      ensures lastCalledApiDate ==
                if useRateLimit && r.Ok? then SentAt(now, old(lastCalledApiDate), true) + fetchTime
                else old(lastCalledApiDate)
      ensures token == old(token)
    {
      var sentAt := now;
      if useRateLimit {
        sentAt := now + WaitTime(now, lastCalledApiDate);
      }
      requests := requests + [Request(endpoint, validate, useRateLimit, sentAt)];
      if validate {
        var outcome := ValidateResult(response);
        if outcome.Fail? {
          return Err(outcome.error);
        }
      }
      if useRateLimit {
        lastCalledApiDate := sentAt + fetchTime;
      }
      return Ok(response);
    }

    /** `get_questions`: a validated, rate-limited call whose URL carries the amount, the
        category id and the current token; the results come back trimmed. */
    method GetQuestions(amount: int, categoryId: int, now: int, fetchTime: nat, response: Payload)
      returns (r: Result<Payload, ApiError>)
      modifies this
      ensures requests == old(requests) +
                [Request(QuestionBatch(amount, categoryId, old(token)), true, true, SentAt(now, old(lastCalledApiDate), true))]
      ensures r.Ok? <==> response.responseCode == Some(0)
      ensures r.Err? ==> r.error == Rejected(response.responseCode, Describe(response.responseCode))
      ensures r.Ok? ==> r.value == TrimmedPayload(response)
      ensures lastCalledApiDate == if r.Ok? then SentAt(now, old(lastCalledApiDate), true) + fetchTime else old(lastCalledApiDate)
      ensures token == old(token)
    {
      r := ApiCall(QuestionBatch(amount, categoryId, token), true, true, now, fetchTime, response);
      if r.Ok? && r.value.results.Some? {
        var trimmed := TrimResults(r.value.results.value);
        assert trimmed == TrimmedPayload(response).results.value;
        r := Ok(r.value.(results := Some(trimmed)));
      }
    }

    /** `questions_in_category`: an unvalidated call without rate limit; a body without the
        count object is an error, a count object without a total gives no total. */
    method QuestionsInCategory(categoryId: int, now: int, fetchTime: nat, response: Payload)
      returns (r: Result<Option<int>, ApiError>)
      modifies this
      ensures requests == old(requests) + [Request(QuestionCount(categoryId), false, false, now)]
      ensures response.categoryQuestionCount.None? ==> r == Err(MalformedPayload)
      ensures response.categoryQuestionCount.Some? ==> r == Ok(response.categoryQuestionCount.value.totalQuestionCount)
      ensures lastCalledApiDate == old(lastCalledApiDate) && token == old(token)
    {
      var result := ApiCall(QuestionCount(categoryId), false, false, now, fetchTime, response);
      if result.value.categoryQuestionCount.None? {
        return Err(MalformedPayload);
      }
      return Ok(result.value.categoryQuestionCount.value.totalQuestionCount);
    }

    /** `get_categories`: an unvalidated call without rate limit returning the listed
        categories, or nothing when the body has no list. */
    method GetCategories(now: int, fetchTime: nat, response: Payload) returns (r: Option<seq<RemoteCategory>>)
      modifies this
      ensures requests == old(requests) + [Request(CategoryList, false, false, now)]
      ensures r == response.triviaCategories
      ensures lastCalledApiDate == old(lastCalledApiDate) && token == old(token)
    {
      var result := ApiCall(CategoryList, false, false, now, fetchTime, response);
      return result.value.triviaCategories;
    }

    /** `reset_token`: a validated call without rate limit; when it passes, the token becomes
        the one in the body (absent if the body has none); when it fails, the token stays. */
    method ResetToken(now: int, fetchTime: nat, response: Payload) returns (r: Outcome<ApiError>)
      modifies this
      ensures requests == old(requests) + [Request(TokenRequest, true, false, now)]
      ensures r == ValidateResult(response)
      ensures token == if r.Pass? then response.token else old(token)
      ensures lastCalledApiDate == old(lastCalledApiDate)
    {
      var result := ApiCall(TokenRequest, true, false, now, fetchTime, response);
      if result.Err? {
        return Fail(result.error);
      }
      token := result.value.token;
      return Pass;
    }
  }
}
