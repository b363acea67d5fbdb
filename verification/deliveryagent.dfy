/**
  The delivery agent's helpers (`examples/ecommerce-chat-js/delivery-agent/agent.js`):
  retrying a rate-limited model call with exponential backoff, and pulling
  the fenced JSON block out of the model's answer.

  The call being retried is the parameter `fn`: `fn(r)` is what the call
  made at retry count `r` returns or throws. The waiting itself is not
  modelled; the delays waited are returned instead. `JSON.parse` is the
  parameter `parse`.
 */
module DeliveryAgent {
  import opened Wrappers
  import opened Strs

  const MaxRetries: nat := 5
  const InitialBackoff: nat := 1000

  /** A thrown error, with its `statusCode` if it has one. */
  datatype CallError = CallError(statusCode: Option<int>, message: string)

  predicate RateLimited(e: CallError) {
    e.statusCode == Some(429)
  }

  function Pow2(n: nat): (r: nat)
    ensures r >= 1
  {
    if n == 0 then 1 else 2 * Pow2(n - 1)
  }

  /** How a retry chain ended: the final outcome, the retry count of the last call and the delays waited. */
  datatype Retried<T> = Retried(result: Result<T, CallError>, lastTry: nat, delays: seq<nat>)

  /**
    `retryWithBackoff(fn, retries)`: a success is returned as is; a 429
    error is retried after `1000 * 2^retries` ms while `retries < 5`;
    any other error, or a 429 once the retries are used up, is rethrown.
   */
  function RetryWithBackoff<T>(fn: nat -> Result<T, CallError>, retries: nat): (r: Retried<T>)
    ensures retries <= r.lastTry
    ensures r.result == fn(r.lastTry)
    ensures RateLimitedBetween(fn, retries, r.lastTry)
    ensures r.lastTry > retries ==> r.lastTry <= MaxRetries
    ensures r.result.Failure? && RateLimited(r.result.error) ==> r.lastTry >= MaxRetries
    ensures |r.delays| == r.lastTry - retries
    ensures BackoffDelays(r.delays, retries)
    decreases if retries < MaxRetries then MaxRetries - retries else 0
  {
    var outcome := fn(retries);
    if outcome.Failure? && RateLimited(outcome.error) && retries < MaxRetries then
      var rest := RetryWithBackoff(fn, retries + 1);
      var delays := [InitialBackoff * Pow2(retries)] + rest.delays;
      OneMoreRetry(fn, retries, rest.lastTry, rest.delays);
      Retried(rest.result, rest.lastTry, delays)
    else Retried(outcome, retries, [])
  }

  /** Every call from retry count `lo` up to (not including) `hi` failed with a 429. */
  predicate RateLimitedBetween<T>(fn: nat -> Result<T, CallError>, lo: nat, hi: nat) {
    forall k :: lo <= k < hi ==> fn(k).Failure? && RateLimited(fn(k).error)
  }

  /** The `i`-th delay, counted from retry count `retries`, is `1000 * 2^(retries + i)` ms. */
  predicate BackoffDelays(delays: seq<nat>, retries: nat) {
    forall i :: 0 <= i < |delays| ==> delays[i] == InitialBackoff * Pow2(retries + i)
  }

  /** A rate-limited call at `retries` followed by the rest of the chain. */
  lemma OneMoreRetry<T>(fn: nat -> Result<T, CallError>, retries: nat, lastTry: nat, rest: seq<nat>)
    requires fn(retries).Failure? && RateLimited(fn(retries).error)
    requires RateLimitedBetween(fn, retries + 1, lastTry)
    requires BackoffDelays(rest, retries + 1)
    ensures RateLimitedBetween(fn, retries, lastTry)
    ensures BackoffDelays([InitialBackoff * Pow2(retries)] + rest, retries)
  {
    var delays := [InitialBackoff * Pow2(retries)] + rest;
    forall i | 0 <= i < |delays|
      ensures delays[i] == InitialBackoff * Pow2(retries + i)
    {
      if i > 0 {
        assert delays[i] == rest[i - 1];
      }
    }
  }

  /**
    From the top-level call (`retries` defaulting to 0): at most six calls,
    waiting 1, 2, 4, 8 and 16 seconds at most, and the last outcome is
    what the caller sees.
   */
  lemma AtMostSixCalls<T>(fn: nat -> Result<T, CallError>)
    ensures var r := RetryWithBackoff(fn, 0);
      && r.lastTry + 1 <= 6
      && r.delays == [1000, 2000, 4000, 8000, 16000][..|r.delays|]
  {
    var r := RetryWithBackoff(fn, 0);
    assert Pow2(1) == 2 && Pow2(2) == 4 && Pow2(3) == 8 && Pow2(4) == 16;
    assert forall i :: 0 <= i < |r.delays| ==> r.delays[i] == [1000, 2000, 4000, 8000, 16000][i];
  }

  /** An error other than 429 is rethrown at once, without waiting. */
  lemma OtherErrorsAreNotRetried<T>(fn: nat -> Result<T, CallError>, retries: nat)
    requires fn(retries).Failure? && !RateLimited(fn(retries).error)
    ensures RetryWithBackoff(fn, retries) == Retried(fn(retries), retries, [])
  {
  }

  /** A call that is always rate limited is tried six times and its last 429 is rethrown. */
  lemma PersistentRateLimit<T>(fn: nat -> Result<T, CallError>)
    requires forall k :: fn(k).Failure? && RateLimited(fn(k).error)
    ensures RetryWithBackoff(fn, 0).lastTry == MaxRetries
    ensures RetryWithBackoff(fn, 0).result == fn(MaxRetries)
  {
  }

  // ---------------------------------------------------------------------
  // extractAndParseJson
  // ---------------------------------------------------------------------

  const Open := "```json\n"
  const Close := "\n```"
  const NoJsonMessage := "No JSON content found between ```json``` tags"

  /**
    Where `/```json\n([\s\S]*?)\n```/` matches: the leftmost opening fence
    that some closing fence follows, and the first closing fence after it.
    Returns the start of the block's text and the start of the closing fence.
   */
  function FindJsonBlock(input: string): (r: Option<(nat, nat)>)
    ensures r.None? ==>
      forall i: nat, j: nat :: OccursAt(Open, input, i) && i + |Open| <= j ==> !OccursAt(Close, input, j)
    ensures r.Some? ==>
      var (start, end) := r.value;
      && start >= |Open| && OccursAt(Open, input, start - |Open|)
      && start <= end && OccursAt(Close, input, end)
      && (forall k: nat :: k < start - |Open| ==> !OccursAt(Open, input, k))
      && (forall k: nat :: start <= k < end ==> !OccursAt(Close, input, k))
  {
    match FindFrom(input, Open, 0)
    case None => None
    case Some(i) =>
      match FindFrom(input, Close, i + |Open|)
      case None => None
      case Some(j) => Some((i + |Open|, j))
  }

  /** The regular-expression step of `extractAndParseJson`: the block's text, or the "no JSON" error. */
  function ExtractJson(input: string): (r: Result<string, string>)
    ensures r.Failure? <==> FindJsonBlock(input).None?
    ensures r.Failure? ==> r.error == NoJsonMessage
    ensures r.Success? ==> r.value == input[FindJsonBlock(input).value.0..FindJsonBlock(input).value.1]
  {
    match FindJsonBlock(input)
    case None => Failure(NoJsonMessage)
    case Some((start, end)) => Success(input[start..end])
  }

  /** `extractAndParseJson`: extraction, then parsing, with the parse error's message wrapped. */
  function ExtractAndParseJson<J>(input: string, parse: string -> Result<J, string>): (r: Result<J, string>)
    ensures ExtractJson(input).Failure? ==> r == Failure(NoJsonMessage)
    ensures ExtractJson(input).Success? && parse(ExtractJson(input).value).Success? ==>
      r == parse(ExtractJson(input).value)
    ensures ExtractJson(input).Success? && parse(ExtractJson(input).value).Failure? ==>
      r == Failure("Failed to parse JSON: " + parse(ExtractJson(input).value).error)
  {
    match ExtractJson(input)
    case Failure(e) => Failure(e)
    case Success(text) =>
      match parse(text)
      case Success(v) => Success(v)
      case Failure(msg) => Failure("Failed to parse JSON: " + msg)
  }

  /**
    Writing a block into a document and extracting it gives the block back,
    when no opening fence comes earlier and the block holds no closing fence.
   */
  lemma {:induction false} ExtractFromDocument(pre: string, body: string, post: string)
    requires var doc := pre + Open + body + Close + post;
      forall k: nat :: k < |pre| ==> !OccursAt(Open, doc, k)
    requires var doc := pre + Open + body + Close + post;
      forall k: nat :: |pre| + |Open| <= k < |pre| + |Open| + |body| ==> !OccursAt(Close, doc, k)
    ensures ExtractJson(pre + Open + body + Close + post) == Success(body)
  {
    var doc := pre + Open + body + Close + post;
    var s := |pre| + |Open|;
    var e := s + |body|;
    assert doc[|pre|..s] == Open;
    assert doc[e..e + |Close|] == Close;
    assert OccursAt(Open, doc, |pre|);
    assert OccursAt(Close, doc, e);
    var r := FindJsonBlock(doc);
    assert r.Some?;
    assert r.value.0 == s;
    assert r.value.1 == e;
    assert doc[s..e] == body;
  }
}
