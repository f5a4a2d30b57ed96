/**
 * The request and retry logic of `generate_mockup_with_gemini` (MockupGenerator.py).
 * The HTTP exchange is not modelled: the server is a function from the attempt
 * number (0, 1, 2) to the classified outcome of that attempt, and `time.sleep`
 * becomes the list of backoff delays the call waits.
 */
module Gemini {
  import opened Base

  const MAX_RETRIES: nat := 3
  const RETRY_DELAY: nat := 5

  /** How one POST ends, as the `try` block and its handler classify it. */
  datatype Outcome =
    | Success(image: Size)   // a candidate whose first part carries inline image data
    | SafetyBlocked          // `finishReason == 'SAFETY'`
    | Malformed              // a 2xx response without an image in the expected place
    | Http429                // a request error whose response has status 429
    | OtherError             // any other request error

  /** The mockup (if any), the number of POSTs made, and the delays slept between them. */
  datatype Reply = Reply(image: Option<Size>, attempts: nat, delays: seq<nat>)

  function Pow2(k: nat): (r: nat)
    ensures r >= 1
  {
    if k == 0 then 1 else 2 * Pow2(k - 1)
  }

  /** `RETRY_DELAY * 2 ** attempt`, the wait after a 429 on `attempt`. */
  function Backoff(attempt: nat): nat
  {
    RETRY_DELAY * Pow2(attempt)
  }

  /** The waits before attempt `k`: one backoff for each earlier attempt. */
  function Backoffs(k: nat): (d: seq<nat>)
    ensures |d| == k
    ensures forall i :: 0 <= i < k ==> d[i] == Backoff(i)
  {
    if k == 0 then [] else Backoffs(k - 1) + [Backoff(k - 1)]
  }

  /** Every attempt before `k` was rate limited. */
  ghost predicate RateLimitedBefore(server: nat -> Outcome, k: nat)
  {
    forall i :: 0 <= i < k ==> server(i) == Http429
  }

  /** The reply once attempts `0 .. k-1` have all been rate limited. */
  function AttemptsFrom(server: nat -> Outcome, k: nat): Reply
    requires k < MAX_RETRIES
    decreases MAX_RETRIES - k
  {
    match server(k)
    case Success(image) => Reply(Some(image), k + 1, Backoffs(k))
    case Http429 =>
      if k < MAX_RETRIES - 1 then AttemptsFrom(server, k + 1)
      else Reply(None, k + 1, Backoffs(k))
    case _ => Reply(None, k + 1, Backoffs(k))
  }

  /** The whole call: no request at all without an API key. */
  function Generate(apiKey: string, server: nat -> Outcome): Reply
  {
    if apiKey == "" then Reply(None, 0, []) else AttemptsFrom(server, 0)
  }

  /**
   * The loop of `generate_mockup_with_gemini`.  Each iteration either returns or,
   * after a 429 on an attempt before the last, sleeps and tries again; the
   * fall-through `return None` after the loop cannot be reached, so the loop
   * runs until one of its returns.
   */
  method GenerateMockup(apiKey: string, server: nat -> Outcome) returns (reply: Reply)
    ensures reply == Generate(apiKey, server)
  {
    if apiKey == "" {
      return Reply(None, 0, []);
    }
    var attempt: nat := 0;
    var delays: seq<nat> := [];
    while true
      invariant attempt < MAX_RETRIES
      invariant delays == Backoffs(attempt)
      invariant AttemptsFrom(server, attempt) == AttemptsFrom(server, 0)
      decreases MAX_RETRIES - attempt
    {
      match server(attempt) {
        case Success(image) =>
          return Reply(Some(image), attempt + 1, delays);
        case SafetyBlocked =>
          return Reply(None, attempt + 1, delays);
        case Malformed =>
          return Reply(None, attempt + 1, delays);
        case Http429 =>
          if attempt < MAX_RETRIES - 1 {
            delays := delays + [Backoff(attempt)];
            attempt := attempt + 1;
          } else {
            return Reply(None, attempt + 1, delays);
          }
        case OtherError =>
          return Reply(None, attempt + 1, delays);
      }
    }
  }

  /** After only 429s, the reply from attempt `k` on is the whole reply. */
  lemma {:induction false} SkipRateLimited(server: nat -> Outcome, k: nat)
    requires k < MAX_RETRIES && RateLimitedBefore(server, k)
    ensures AttemptsFrom(server, 0) == AttemptsFrom(server, k)
  {
    if k > 0 {
      SkipRateLimited(server, k - 1);
    }
  }

  /**
   * At most three POSTs; with a key there is exactly one more POST than delays,
   * and the delays are a prefix of 5, 10.
   */
  lemma {:induction false} RetryBounds(apiKey: string, server: nat -> Outcome)
    ensures var r := Generate(apiKey, server);
      && r.attempts <= MAX_RETRIES
      && (r.attempts == 0 <==> apiKey == "")
      && (apiKey != "" ==> r.attempts == |r.delays| + 1)
      && |r.delays| <= 2
      && r.delays == [5, 10][..|r.delays|]
  {
    if apiKey != "" {
      AttemptsBounds(server, 0);
    }
  }

  lemma {:induction false} AttemptsBounds(server: nat -> Outcome, k: nat)
    requires k < MAX_RETRIES
    ensures var r := AttemptsFrom(server, k);
      && k < r.attempts <= MAX_RETRIES && r.attempts == |r.delays| + 1
      && r.delays == Backoffs(r.attempts - 1)
    decreases MAX_RETRIES - k
  {
    if server(k) == Http429 && k < MAX_RETRIES - 1 {
      AttemptsBounds(server, k + 1);
    }
    assert Backoffs(2) == [5, 10];
  }

  /**
   * A mockup comes back exactly when there is a key and some attempt `k < 3`
   * succeeded after `k` rate-limited attempts; it is that attempt's image.
   */
  lemma SuccessExactly(apiKey: string, server: nat -> Outcome, k: nat)
    requires k < MAX_RETRIES
    ensures (apiKey != "" && RateLimitedBefore(server, k) && server(k).Success?) ==>
      Generate(apiKey, server) == Reply(Some(server(k).image), k + 1, Backoffs(k))
  {
    if apiKey != "" && RateLimitedBefore(server, k) {
      SkipRateLimited(server, k);
    }
  }

  /** Conversely, every image returned is a success after only 429s. */
  lemma {:induction false} SuccessOnlyAfterRateLimits(apiKey: string, server: nat -> Outcome)
    requires Generate(apiKey, server).image.Some?
    ensures apiKey != ""
    ensures var n := Generate(apiKey, server).attempts;
      1 <= n <= MAX_RETRIES && RateLimitedBefore(server, n - 1)
      && server(n - 1) == Success(Generate(apiKey, server).image.value)
  {
    SuccessFrom(server, 0);
  }

  lemma {:induction false} SuccessFrom(server: nat -> Outcome, k: nat)
    requires k < MAX_RETRIES && AttemptsFrom(server, k).image.Some?
    ensures var n := AttemptsFrom(server, k).attempts;
      k < n <= MAX_RETRIES && (forall i :: k <= i < n - 1 ==> server(i) == Http429)
      && server(n - 1) == Success(AttemptsFrom(server, k).image.value)
    decreases MAX_RETRIES - k
  {
    if server(k) == Http429 {
      SuccessFrom(server, k + 1);
    }
  }

  /**
   * A safety block, a malformed payload or a non-429 error ends the call at once:
   * no further attempt and no further sleep.
   */
  lemma TerminalOutcome(apiKey: string, server: nat -> Outcome, k: nat)
    requires apiKey != "" && k < MAX_RETRIES && RateLimitedBefore(server, k)
    requires server(k) == SafetyBlocked || server(k) == Malformed || server(k) == OtherError
    ensures Generate(apiKey, server) == Reply(None, k + 1, Backoffs(k))
  {
    SkipRateLimited(server, k);
  }

  /** Three 429s in a row give up after waiting 5 and 10 seconds; there is no fourth POST. */
  lemma ThreeRateLimits(apiKey: string, server: nat -> Outcome)
    requires apiKey != "" && RateLimitedBefore(server, MAX_RETRIES)
    ensures Generate(apiKey, server) == Reply(None, 3, [5, 10])
  {
    SkipRateLimited(server, 2);
    assert Backoffs(2) == [5, 10];
  }

  /**
   * The call as written.  A `requests` response is falsy when its status is 400
   * or more, so the handler's `e.response and ...` test fails for a 429 and the
   * rate limit takes the branch of any other request error: the call always ends
   * after its first POST.
   */
  function GenerateAsWritten(apiKey: string, server: nat -> Outcome): (r: Reply)
    ensures r.attempts <= 1 && r.delays == []
    ensures r.attempts == 0 <==> apiKey == ""
  {
    if apiKey == "" then Reply(None, 0, [])
    else
      match server(0)
      case Success(image) => Reply(Some(image), 1, [])
      case _ => Reply(None, 1, [])
  }

  /** The two differ only when the first POST is rate limited. */
  lemma AsWrittenAgreesWithoutRateLimit(apiKey: string, server: nat -> Outcome)
    requires apiKey == "" || server(0) != Http429
    ensures GenerateAsWritten(apiKey, server) == Generate(apiKey, server)
  {
  }

  /**
   * One 429 and then a success: the intended call waits 5 seconds and returns the
   * image on its second POST, the call as written gives up after the first.
   */
  lemma RateLimitedOnce(apiKey: string, image: Size)
    requires apiKey != ""
    ensures var server := (k: nat) => if k == 0 then Http429 else Success(image);
      && GenerateAsWritten(apiKey, server) == Reply(None, 1, [])
      && Generate(apiKey, server) == Reply(Some(image), 2, [5])
  {
    var server := (k: nat) => if k == 0 then Http429 else Success(image);
    SuccessExactly(apiKey, server, 1);
    assert Backoffs(1) == [5];
  }

  /** Which reading of the handler a run follows: the evident intent, or the code as written. */
  datatype Client = Intended | AsWritten

  /**
   * The reply of one call under either reading.  Both readings make at most three
   * POSTs, none without a key, one more POST than waits, the waits a prefix of
   * 5, 10; and an image is only ever the one the last POST returned.
   */
  function Respond(client: Client, apiKey: string, server: nat -> Outcome): (r: Reply)
    ensures r.attempts <= MAX_RETRIES
    ensures r.attempts == 0 <==> apiKey == ""
    ensures apiKey != "" ==> r.attempts == |r.delays| + 1
    ensures |r.delays| <= 2 && r.delays == [5, 10][..|r.delays|]
    ensures r.image.Some? ==> r.attempts >= 1 && server(r.attempts - 1) == Success(r.image.value)
  {
    match client
    case Intended =>
      RetryBounds(apiKey, server);
      if Generate(apiKey, server).image.Some? then
        SuccessOnlyAfterRateLimits(apiKey, server);
        Generate(apiKey, server)
      else Generate(apiKey, server)
    case AsWritten => GenerateAsWritten(apiKey, server)
  }
}
