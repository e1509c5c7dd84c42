/**
 * The completion client: `get_gemini_response`, a bounded retry loop around
 * one call to the hosted generative service, and `optimize_resume`, which
 * sends the optimisation prompt through it.
 *
 * The service is an oracle: `service(request, attempt)` is what the call
 * made on the given attempt (counted from 0) does, either raise an exception
 * with a message or return a response. The side effects of the loop, its
 * calls and its `time.sleep`s, are recorded in a trace of events.
 */
module Completion {
  import opened Wrappers
  import Prompts

  /** The prefix of the string returned once every attempt has raised. */
  const ErrorPrefix := "\U{274C} Error generating response: "

  /** Seconds slept between two attempts. */
  const RetryPause: nat := 2

  /** The number of attempts when the caller gives none. */
  const DefaultRetries := 3

  /**
   * A response candidate, reduced to the texts of its content parts and the
   * message of the exception that indexing its parts raises when there are
   * none (the parts container belongs to the client library).
   */
  datatype Candidate = Candidate(parts: seq<string>, missingPart: string)

  /**
   * A service response: its candidates, and what reading its top-level
   * `text` property gives (a string, `None`, or an exception).
   */
  datatype Response = Response(candidates: seq<Candidate>, text: Result<Option<string>, string>)

  /** What one call to the service does. */
  datatype Attempt = Raised(message: string) | Returned(response: Response)

  /** The arguments of a call: the prompt, and whether JSON output was requested. */
  datatype Request = Request(prompt: string, jsonMode: bool)

  datatype Event = Call(request: Request) | Sleep(seconds: nat)

  /**
   * The text taken from a response inside the `try` block: the first part of
   * the first candidate when there are candidates, otherwise the top-level
   * text with `None` and `""` both giving `""`. An exception raised on the
   * way (no part to index, or the `text` property raising) is a failure of
   * the attempt.
   */
  function ResponseText(r: Response): Result<string, string> {
    if r.candidates != [] then
      if r.candidates[0].parts != [] then Success(r.candidates[0].parts[0])
      else Failure(r.candidates[0].missingPart)
    else match r.text
      case Failure(m) => Failure(m)
      case Success(None) => Success("")
      case Success(Some(t)) => Success(t)
  }

  /**
   * What a returned response yields: with candidates, the first part of the
   * first candidate, or the library's indexing error when it has no part;
   * without candidates, the top-level text with `None` read as `""`, or the
   * exception reading it raises.
   */
  lemma ResponseTextCases(r: Response)
    ensures var t := ResponseText(r);
      && (r.candidates != [] ==> (t.Success? <==> r.candidates[0].parts != []))
      && (r.candidates != [] && t.Success? ==> t.value == r.candidates[0].parts[0])
      && (r.candidates != [] && t.Failure? ==> t.error == r.candidates[0].missingPart)
      && (r.candidates == [] ==> (t.Failure? <==> r.text.Failure?))
      && (r.candidates == [] && t.Failure? ==> t.error == r.text.error)
      && (r.candidates == [] && t.Success? ==> (t.value == "" <==> r.text.value.None? || r.text.value.value == ""))
      && (r.candidates == [] && t.Success? && t.value != "" ==> r.text.value == Some(t.value))
  {
  }

  /** What the `try` block of attempt `i` ends with: the text to return, or the message it raised. */
  function AttemptResult(service: (Request, nat) -> Attempt, request: Request, i: nat): Result<string, string> {
    match service(request, i)
    case Raised(m) => Failure(m)
    case Returned(r) => ResponseText(r)
  }

  /** The number of calls in a trace. */
  function Calls(trace: seq<Event>): nat {
    if trace == [] then 0
    else Calls(trace[..|trace| - 1]) + (if trace[|trace| - 1].Call? then 1 else 0)
  }

  /** The number of sleeps in a trace. */
  function Sleeps(trace: seq<Event>): nat {
    if trace == [] then 0
    else Sleeps(trace[..|trace| - 1]) + (if trace[|trace| - 1].Sleep? then 1 else 0)
  }

  /** The events of `k` failed attempts that were each followed by a pause. */
  function Retried(request: Request, k: nat): seq<Event> {
    if k == 0 then [] else Retried(request, k - 1) + [Call(request), Sleep(RetryPause)]
  }

  /** The events of `n` attempts: a call each, with a pause between two calls and none after the last. */
  function Schedule(request: Request, n: nat): seq<Event> {
    if n == 0 then [] else Retried(request, n - 1) + [Call(request)]
  }

  lemma {:induction false} RetriedCounts(request: Request, k: nat)
    ensures |Retried(request, k)| == 2 * k
    ensures Calls(Retried(request, k)) == k && Sleeps(Retried(request, k)) == k
    ensures Calls(Retried(request, k) + [Call(request)]) == k + 1
  {
    var t := Retried(request, k);
    if k > 0 {
      var p := Retried(request, k - 1);
      RetriedCounts(request, k - 1);
      assert t == (p + [Call(request)]) + [Sleep(RetryPause)];
      assert t[..|t| - 1] == p + [Call(request)];
      assert (p + [Call(request)])[..|p|] == p;
      assert Sleeps(p + [Call(request)]) == k - 1;
    }
    assert (t + [Call(request)])[..|t|] == t;
  }

  /**
   * The shape of a schedule of `n > 0` attempts: calls at the even positions,
   * pauses of `RetryPause` seconds at the odd ones, so exactly `n` calls,
   * `n - 1` pauses, and the last event is a call, never a pause.
   */
  lemma {:induction false} ScheduleShape(request: Request, n: nat)
    requires n > 0
    ensures |Schedule(request, n)| == 2 * n - 1
    ensures forall k :: 0 <= k < 2 * n - 1 ==>
      Schedule(request, n)[k] == if k % 2 == 0 then Call(request) else Sleep(RetryPause)
    ensures Calls(Schedule(request, n)) == n && Sleeps(Schedule(request, n)) == n - 1
    ensures Schedule(request, n)[2 * n - 2] == Call(request)
  {
    RetriedCounts(request, n - 1);
    RetriedAt(request, n - 1);
    var t := Retried(request, n - 1);
    var s := Schedule(request, n);
    assert s == t + [Call(request)];
    forall k | 0 <= k < 2 * n - 1
      ensures s[k] == if k % 2 == 0 then Call(request) else Sleep(RetryPause)
    {
      if k < |t| { assert s[k] == t[k]; }
    }
    assert s[..|t|] == t;
  }

  lemma {:induction false} RetriedAt(request: Request, k: nat)
    ensures |Retried(request, k)| == 2 * k
    ensures forall j :: 0 <= j < 2 * k ==>
      Retried(request, k)[j] == if j % 2 == 0 then Call(request) else Sleep(RetryPause)
  {
    if k > 0 {
      RetriedAt(request, k - 1);
    }
  }

  /**
   * `get_gemini_response(prompt, json_mode, retries)` against the service
   * `service`. `None` stands for the implicit `None` returned when the loop
   * runs zero times.
   */
  method GetGeminiResponse(prompt: string, jsonMode: bool, retries: int, service: (Request, nat) -> Attempt)
    returns (result: Option<string>, trace: seq<Event>)
    // the calls all carry the prompt and the mode, with a pause between two calls and none after the last
    ensures trace == Schedule(Request(prompt, jsonMode), Calls(trace))
    // no more than `retries` calls; none, and no result, when `retries <= 0`
    ensures Calls(trace) <= (if retries < 0 then 0 else retries)
    ensures retries <= 0 ==> result == None
    ensures retries > 0 ==> Calls(trace) > 0 && result.Some?
    // every attempt before the last one made raised
    ensures forall i :: 0 <= i < Calls(trace) - 1 ==> AttemptResult(service, Request(prompt, jsonMode), i).Failure?
    // the last attempt made is the first that succeeded, and its text is returned,
    // or it is attempt `retries` and raised, and its message is returned after the prefix
    ensures Calls(trace) > 0 ==>
      match AttemptResult(service, Request(prompt, jsonMode), Calls(trace) - 1)
      case Success(t) => result == Some(t)
      case Failure(m) => Calls(trace) == retries && result == Some(ErrorPrefix + m)
    // when every attempt raises, all `retries` attempts are made
    ensures (forall i :: 0 <= i < retries ==> AttemptResult(service, Request(prompt, jsonMode), i).Failure?) ==>
      Calls(trace) == (if retries < 0 then 0 else retries)
  {
    var request := Request(prompt, jsonMode);
    result, trace := None, [];
    var attempt := 0;
    while attempt < retries
      invariant 0 <= attempt && (attempt == 0 || attempt < retries)
      invariant trace == Retried(request, attempt)
      invariant forall i :: 0 <= i < attempt ==> AttemptResult(service, request, i).Failure?
    {
      RetriedCounts(request, attempt);
      trace := trace + [Call(request)];
      var outcome := AttemptResult(service, request, attempt);
      match outcome {
        case Success(t) =>
          result := Some(t);
          return;
        case Failure(m) =>
          if attempt < retries - 1 {
            trace := trace + [Sleep(RetryPause)];
          } else {
            result := Some(ErrorPrefix + m);
              return;
          }
      }
      attempt := attempt + 1;
    }
    assert attempt == 0;
  }

  /**
   * `optimize_resume(resume_text, jd)`: the optimisation prompt sent once
   * per attempt, without JSON mode, with the default number of attempts.
   */
  method OptimizeResume(resumeText: string, jd: string, service: (Request, nat) -> Attempt)
    returns (result: string, trace: seq<Event>)
    ensures 1 <= Calls(trace) <= DefaultRetries
    ensures trace == Schedule(Request(Prompts.OptimizationPrompt(resumeText, jd), false), Calls(trace))
    // every attempt before the last one made raised
    ensures forall i :: 0 <= i < Calls(trace) - 1 ==>
      AttemptResult(service, Request(Prompts.OptimizationPrompt(resumeText, jd), false), i).Failure?
    // the last one made is the first success and its text is returned, or it is the third and raised
    ensures var last := AttemptResult(service, Request(Prompts.OptimizationPrompt(resumeText, jd), false), Calls(trace) - 1);
      && (last.Success? ==> result == last.value)
      && (last.Failure? ==> Calls(trace) == DefaultRetries && result == ErrorPrefix + last.error)
  {
    var r;
    r, trace := GetGeminiResponse(Prompts.OptimizationPrompt(resumeText, jd), false, DefaultRetries, service);
    result := r.value;
  }
}
