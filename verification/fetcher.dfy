/** `fetchWithRetries` from utils/scraper.js. Each attempt is one GET; the
    network is a parameter that gives the outcome of attempt number `k`
    (counting from 1) for a URL. An attempt fails when the request rejects
    (transport or TLS error, or the 15-second abort) or when the response
    status is not ok; a failed attempt is retried at once, and after the
    last allowed attempt the function gives up with `null`. */
module Fetcher {
  import opened Options

  type Bytes = seq<bv8>

  datatype Response = Response(status: int, body: Bytes)

  /** What one attempt produced. */
  datatype Attempt =
    | Responded(response: Response)
    | Thrown   // the request or the body read rejected, or it was aborted

  /** Outcome of attempt `k` for a URL. */
  type Network = (string, nat) -> Attempt

  /** Default number of attempts. */
  const RETRY_LIMIT: nat := 3

  /** `response.ok`: a status in the range 200-299. */
  predicate IsOk(r: Response)
  {
    200 <= r.status <= 299
  }

  /** The attempt returns a body rather than throwing. */
  predicate Succeeds(a: Attempt)
  {
    a.Responded? && IsOk(a.response)
  }

  /** The body, or `null`, and how many attempts were made. */
  datatype FetchResult = FetchResult(body: Option<Bytes>, attempts: nat)

  /** The loop of `fetchWithRetries` from attempt number `attempt` on. */
  function FetchFrom(net: Network, url: string, retries: nat, attempt: nat): (r: FetchResult)
    requires 1 <= attempt <= retries
    decreases retries - attempt
    ensures attempt <= r.attempts <= retries
    ensures forall k | attempt <= k < r.attempts :: !Succeeds(net(url, k))
    ensures r.body.Some? ==> Succeeds(net(url, r.attempts)) && r.body.value == net(url, r.attempts).response.body
    ensures r.body.None? ==> r.attempts == retries && !Succeeds(net(url, retries))
  {
    var outcome := net(url, attempt);
    if Succeeds(outcome) then FetchResult(Some(outcome.response.body), attempt)
    else if attempt == retries then FetchResult(None, attempt)
    else FetchFrom(net, url, retries, attempt + 1)
  }

  /** `fetchWithRetries(url, retries)`: the body of the first successful
      attempt, `null` exactly when all `retries` attempts fail, and never an
      attempt past the first success or past the last allowed one. */
  function FetchWithRetries(net: Network, url: string, retries: nat): (r: FetchResult)
    requires retries >= 1
    ensures 1 <= r.attempts <= retries
    ensures forall k | 1 <= k < r.attempts :: !Succeeds(net(url, k))
    ensures r.body.Some? ==> Succeeds(net(url, r.attempts)) && r.body.value == net(url, r.attempts).response.body
    ensures r.body.None? <==> forall k | 1 <= k <= retries :: !Succeeds(net(url, k))
    ensures r.body.None? ==> r.attempts == retries
  {
    FetchFrom(net, url, retries, 1)
  }

  /** The result depends only on the attempts actually made: a network that
      agrees on those attempts gives the same result, whatever it would have
      answered to later ones. */
  lemma {:induction false} FetchSeesOnlyAttemptsMade(net: Network, net': Network, url: string, retries: nat, attempt: nat)
    requires 1 <= attempt <= retries
    requires forall k | attempt <= k <= FetchFrom(net, url, retries, attempt).attempts :: net'(url, k) == net(url, k)
    ensures FetchFrom(net', url, retries, attempt) == FetchFrom(net, url, retries, attempt)
    decreases retries - attempt
  {
    assert net'(url, attempt) == net(url, attempt);
    if !Succeeds(net(url, attempt)) && attempt < retries {
      FetchSeesOnlyAttemptsMade(net, net', url, retries, attempt + 1);
    }
  }

  /** With the default limit, a URL that never answers ok yields `null` after
      exactly three attempts. */
  lemma AlwaysFailingUrl(net: Network, url: string)
    requires forall k :: !Succeeds(net(url, k))
    ensures FetchWithRetries(net, url, RETRY_LIMIT) == FetchResult(None, 3)
  {
  }
}
