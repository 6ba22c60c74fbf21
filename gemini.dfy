/**
 * `callApiWithBackoff`: calls the generative-text endpoint up to `maxRetries` times,
 * returning the first OK response's body, failing at once on a client error, and sleeping
 * 1000, 2000, 4000, ... ms between attempts that failed in a retryable way.
 *
 * `fetch` is a function from the 0-based call number to that call's outcome (the
 * response, or the error the call itself rejected with). The sleeps are not waited for:
 * each is recorded, in order, in the returned list of delays.
 */
module Gemini {
  import opened Wrappers
  import opened Numeric

  /** The parsed JSON body of a response. `content` stands for the whole document, which
      the invoker hands back untouched; `errorMessage` is `body.error?.message`. */
  datatype JsonBody = JsonBody(content: string, errorMessage: Option<string>)

  /** The outcome of `await response.json()`. */
  datatype BodyRead = Parsed(json: JsonBody) | Unparsable(message: string)

  /** What `fetch` resolves to. */
  datatype Response = Response(ok: bool, status: int, statusText: string, body: BodyRead)

  /** One call of `fetch`: a response, or a rejection such as a network failure. */
  datatype FetchOutcome = Resolved(response: Response) | Rejected(message: string)

  /** A thrown `Error`: its message, and whether `shouldRetry` was set to `false`. */
  datatype JsError = JsError(message: string, markedNonRetryable: bool)

  /** How the `try` block ends: returning a body or throwing. */
  datatype TryOutcome = Return(json: JsonBody) | Throw(error: JsError)

  /** How `callApiWithBackoff` settles: resolved with a body, rejected with an error, or
      resolved with `undefined` when the loop never runs. */
  datatype CallResult = Success(json: JsonBody) | Failure(error: JsError) | Undefined

  /** The observable trace of one invocation: its result, how many times `fetch` was
      called, and the sleeps taken, in order. */
  datatype Trace = Trace(result: CallResult, calls: nat, sleeps: seq<int>)

  /** The number of attempts when the caller passes no `maxRetries`, as every caller does. */
  const DefaultMaxRetries: int := 3

  /** Rate limiting and server errors are retried. */
  predicate IsRetryableStatus(status: int) {
    status == 429 || status >= 500
  }

  /** The character of a decimal digit. */
  function Digit(d: nat): char
    requires d < 10
  {
    (48 + d) as char
  }

  /** Decimal digits of a natural number. */
  function NatToString(n: nat): string
    decreases n
  {
    if n < 10 then [Digit(n)] else NatToString(n / 10) + [Digit(n % 10)]
  }

  /** JavaScript's rendering of an integer in a template literal. */
  function IntToString(n: int): string {
    if n < 0 then "-" + NatToString(-n) else NatToString(n)
  }

  /** The message of a retryable failure: `API Error: <statusText> (Status: <status>)`. */
  function RetryableMessage(r: Response): string {
    "API Error: " + r.statusText + " (Status: " + IntToString(r.status) + ")"
  }

  /** The message of a client error: the body's `error.message` when it is a non-empty
      string, otherwise the status text. */
  function NonRetryableMessage(r: Response, json: JsonBody): string {
    "API Error: " + (if json.errorMessage.Some? && json.errorMessage.value != "" then json.errorMessage.value
                     else r.statusText)
  }

  /** The `try` block for one call: an OK response returns its parsed body; a 429 or 5xx
      throws a plain error; any other status throws an error marked non-retryable, whose
      message comes from the parsed body. A rejected `fetch` or a body that does not parse
      throws that error, unmarked. */
  function TryBody(o: FetchOutcome): TryOutcome {
    match o
    case Rejected(m) => Throw(JsError(m, false))
    case Resolved(r) =>
      if !r.ok then
        if IsRetryableStatus(r.status) then Throw(JsError(RetryableMessage(r), false))
        else
          match r.body
          case Unparsable(m) => Throw(JsError(m, false))
          case Parsed(json) => Throw(JsError(NonRetryableMessage(r, json), true))
      else
        match r.body
        case Unparsable(m) => Throw(JsError(m, false))
        case Parsed(json) => Return(json)
  }

  /** The call ends the loop: it returned, or threw an error marked non-retryable. */
  predicate Stops(o: FetchOutcome) {
    match TryBody(o)
    case Return(_) => true
    case Throw(e) => e.markedNonRetryable
  }

  /** Which responses the `catch` block retries: for a response whose body parses, a
      non-OK status is retried exactly when it is 429 or at least 500, and an OK status
      ends the loop. Rejected calls are always retried. */
  lemma RetryClassification(o: FetchOutcome)
    ensures o.Rejected? ==> !Stops(o) && TryBody(o) == Throw(JsError(o.message, false))
    ensures o.Resolved? && o.response.body.Parsed? ==>
              (Stops(o) <==> o.response.ok || !IsRetryableStatus(o.response.status))
    ensures o.Resolved? && o.response.body.Unparsable? ==> !Stops(o)
  {
  }

  /** `1000 * 2^k`, the `k`-th (0-based) sleep. */
  function BackoffDelay(k: nat): (d: int)
    ensures d >= 1000
    decreases k
  {
    if k == 0 then 1000 else 2 * BackoffDelay(k - 1)
  }

  /** The first `m` sleeps of the schedule. */
  function Backoff(m: nat): (ds: seq<int>)
    ensures |ds| == m
    ensures forall k :: 0 <= k < m ==> ds[k] == BackoffDelay(k)
    decreases m
  {
    if m == 0 then [] else Backoff(m - 1) + [BackoffDelay(m - 1)]
  }

  /** `2^k`. */
  function Pow2(k: nat): nat
    decreases k
  {
    if k == 0 then 1 else 2 * Pow2(k - 1)
  }

  /** The schedule in closed form: sleep `k` (0-based) lasts `1000 * 2^k`. */
  lemma {:induction false} BackoffDelayClosedForm(k: nat)
    ensures BackoffDelay(k) == 1000 * Pow2(k)
    decreases k
  {
    if k > 0 {
      BackoffDelayClosedForm(k - 1);
    }
  }

  /** The first call, from call `k` on and before call `n`, that ends the loop; `n` when
      none does. */
  function FirstStop(fetch: nat -> FetchOutcome, k: nat, n: nat): (j: nat)
    requires k <= n
    ensures k <= j <= n
    ensures j < n ==> Stops(fetch(j))
    ensures forall i :: k <= i < j ==> !Stops(fetch(i))
    decreases n - k
  {
    if k == n then n else if Stops(fetch(k)) then k else FirstStop(fetch, k + 1, n)
  }

  /** The settled result for a call that ended the loop. */
  function Settle(t: TryOutcome): CallResult {
    match t
    case Return(json) => Success(json)
    case Throw(e) => Failure(e)
  }

  /** What an invocation does, stated without its loop: no call when `maxRetries <= 0`;
      otherwise calls until the first one that ends the loop, or `maxRetries` calls, with
      one sleep between consecutive calls; the result is the stopping call's, or the last
      call's error after `maxRetries` retryable failures. */
  function Invoke(fetch: nat -> FetchOutcome, maxRetries: int): (t: Trace) {
    if maxRetries <= 0 then Trace(Undefined, 0, [])
    else
      var j := FirstStop(fetch, 0, maxRetries);
      if j < maxRetries then Trace(Settle(TryBody(fetch(j))), j + 1, Backoff(j))
      else Trace(Failure(TryBody(fetch(maxRetries - 1)).error), maxRetries, Backoff(maxRetries - 1))
  }

  /** `callApiWithBackoff(payload, maxRetries)`. */
  method CallApiWithBackoff(fetch: nat -> FetchOutcome, maxRetries: int)
    returns (result: CallResult, calls: nat, sleeps: seq<int>)
    ensures Trace(result, calls, sleeps) == Invoke(fetch, maxRetries)
  {
    var attempt: nat := 0;
    var delay := 1000;
    calls, sleeps := 0, [];
    while attempt < maxRetries
      invariant attempt == 0 || attempt < maxRetries
      invariant calls == attempt
      invariant delay == BackoffDelay(attempt)
      invariant sleeps == Backoff(attempt)
      invariant maxRetries > 0 ==> FirstStop(fetch, 0, maxRetries) == FirstStop(fetch, attempt, maxRetries)
      decreases maxRetries - attempt
    {
      var outcome := TryBody(fetch(attempt));
      calls := calls + 1;
      match outcome {
        case Return(json) =>
          return Success(json), calls, sleeps;
        case Throw(error) =>
          if error.markedNonRetryable {
            return Failure(error), calls, sleeps;
          }
          attempt := attempt + 1;
          if attempt >= maxRetries {
            return Failure(error), calls, sleeps;
          }
          sleeps := sleeps + [delay];
          delay := delay * 2;
      }
    }
    result := Undefined;
  }

  /** At most `maxRetries` calls are made, one sleep fewer than calls, and the `k`-th
      sleep lasts `1000 * 2^k` ms; for `maxRetries <= 0` nothing is called and the result
      is `undefined`. */
  lemma InvokeBounds(fetch: nat -> FetchOutcome, maxRetries: int, k: nat)
    ensures var t := Invoke(fetch, maxRetries);
            && t.calls <= Max(0, maxRetries)
            && |t.sleeps| == Max(0, t.calls - 1)
            && (k < |t.sleeps| ==> t.sleeps[k] == 1000 * Pow2(k))
            && (maxRetries <= 0 <==> t.calls == 0)
            && (maxRetries <= 0 <==> t.result == Undefined)
  {
    BackoffDelayClosedForm(k);
  }

  /** An OK first response with a readable body is returned at once, after one call and
      no sleep. */
  lemma OkFirstCall(fetch: nat -> FetchOutcome, maxRetries: int, json: JsonBody)
    requires maxRetries >= 1
    requires fetch(0).Resolved? && fetch(0).response.ok && fetch(0).response.body == Parsed(json)
    ensures Invoke(fetch, maxRetries) == Trace(Success(json), 1, [])
  {
  }

  /** A client error on the first call fails at once, after one call and no sleep, with
      the message taken from the body. */
  lemma ClientErrorFirstCall(fetch: nat -> FetchOutcome, maxRetries: int, json: JsonBody)
    requires maxRetries >= 1
    requires var o := fetch(0);
             o.Resolved? && !o.response.ok && !IsRetryableStatus(o.response.status)
             && o.response.body == Parsed(json)
    ensures Invoke(fetch, maxRetries)
            == Trace(Failure(JsError(NonRetryableMessage(fetch(0).response, json), true)), 1, [])
  {
  }

  /** Persistent retryable failures exhaust the attempts: `maxRetries` calls,
      `maxRetries - 1` sleeps, and the last call's error is thrown. */
  lemma {:induction false} Exhaustion(fetch: nat -> FetchOutcome, maxRetries: int)
    requires maxRetries >= 1
    requires forall i: nat :: i < maxRetries ==> !Stops(fetch(i))
    ensures Invoke(fetch, maxRetries)
            == Trace(Failure(TryBody(fetch(maxRetries - 1)).error), maxRetries, Backoff(maxRetries - 1))
  {
    FirstStopNone(fetch, 0, maxRetries);
  }

  /** With no stopping call in `k..n`, the search runs to `n`. */
  lemma {:induction false} FirstStopNone(fetch: nat -> FetchOutcome, k: nat, n: nat)
    requires k <= n
    requires forall i: nat :: k <= i < n ==> !Stops(fetch(i))
    ensures FirstStop(fetch, k, n) == n
    decreases n - k
  {
    if k < n {
      FirstStopNone(fetch, k + 1, n);
    }
  }

  /** After `j` retryable failures, a call that ends the loop is the last call made, and
      its outcome is the result. */
  lemma {:induction false} StopsAfterRetries(fetch: nat -> FetchOutcome, maxRetries: int, j: nat)
    requires j < maxRetries
    requires forall i: nat :: i < j ==> !Stops(fetch(i))
    requires Stops(fetch(j))
    ensures Invoke(fetch, maxRetries) == Trace(Settle(TryBody(fetch(j))), j + 1, Backoff(j))
  {
    FirstStopAt(fetch, 0, j, maxRetries);
  }

  /** The search finds the first stopping call. */
  lemma {:induction false} FirstStopAt(fetch: nat -> FetchOutcome, k: nat, j: nat, n: nat)
    requires k <= j < n
    requires forall i: nat :: k <= i < j ==> !Stops(fetch(i))
    requires Stops(fetch(j))
    ensures FirstStop(fetch, k, n) == j
    decreases j - k
  {
    if k < j {
      FirstStopAt(fetch, k + 1, j, n);
    }
  }

  /** The unit test's rate limit then success: two calls, one sleep of 1000 ms, and the
      second body is returned. */
  lemma RateLimitThenSuccess(json: JsonBody)
    ensures var limited := Response(false, 429, "Too Many Requests", Unparsable("no body"));
            var okay := Response(true, 200, "OK", Parsed(json));
            Invoke((i: nat) => if i == 0 then Resolved(limited) else Resolved(okay), DefaultMaxRetries)
            == Trace(Success(json), 2, [1000])
  {
    var limited := Response(false, 429, "Too Many Requests", Unparsable("no body"));
    var okay := Response(true, 200, "OK", Parsed(json));
    var f := (i: nat) => if i == 0 then Resolved(limited) else Resolved(okay);
    StopsAfterRetries(f, DefaultMaxRetries, 1);
  }

  /** The unit test's persistent server error: three calls, sleeps of 1000 and 2000 ms,
      and the message names the status text and code. */
  lemma ServerErrorExhausts()
    ensures var failing := Response(false, 500, "Internal Server Error", Unparsable("no body"));
            Invoke((i: nat) => Resolved(failing), DefaultMaxRetries)
            == Trace(Failure(JsError("API Error: Internal Server Error (Status: 500)", false)), DefaultMaxRetries, [1000, 2000])
  {
    var failing := Response(false, 500, "Internal Server Error", Unparsable("no body"));
    var f := (i: nat) => Resolved(failing);
    forall i: nat | i < 3 ensures !Stops(f(i)) {
      assert TryBody(f(i)) == Throw(JsError(RetryableMessage(failing), false));
    }
    Exhaustion(f, DefaultMaxRetries);
    Status500Message(failing);
    assert Backoff(2) == [1000, 2000] by {
      assert Backoff(1) == [1000];
    }
  }

  /** The message for a 500 response. */
  lemma Status500Message(r: Response)
    requires r.status == 500 && r.statusText == "Internal Server Error"
    ensures RetryableMessage(r) == "API Error: Internal Server Error (Status: 500)"
  {
    assert NatToString(5) == "5";
    assert NatToString(50) == "50";
    assert IntToString(500) == "500";
  }

  /** The unit test's invalid key: one call, no sleep, the body's message. */
  lemma InvalidKeyFailsAtOnce()
    ensures var denied := Response(false, 401, "Unauthorized",
                                   Parsed(JsonBody("{}", Some("Invalid API key"))));
            Invoke((i: nat) => Resolved(denied), DefaultMaxRetries)
            == Trace(Failure(JsError("API Error: Invalid API key", true)), 1, [])
  {
    var denied := Response(false, 401, "Unauthorized", Parsed(JsonBody("{}", Some("Invalid API key"))));
    ClientErrorFirstCall((i: nat) => Resolved(denied), DefaultMaxRetries, JsonBody("{}", Some("Invalid API key")));
    assert NonRetryableMessage(denied, JsonBody("{}", Some("Invalid API key"))) == "API Error: Invalid API key";
  }
}
