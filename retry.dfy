/** The retry policy both crawlers' `_fetch` follow: up to three GET attempts,
    the first response that passes `raise_for_status` wins, an
    `aiohttp.ClientError` is retried after a pause of one to three seconds
    unless it was the last attempt, and any other exception escapes. */
module Retry {
  import opened Wrappers

  const NumberOfRetries: nat := 3
  const RangeFrom: nat := 1
  const RangeTo: nat := 3

  /** What one attempt comes to: a response that passed `raise_for_status`,
      with its text; an `aiohttp.ClientError` (an error status, a connection
      or proxy failure); or any other exception. */
  datatype Outcome = Ok(body: string) | ClientErr | OtherErr

  /** A GET request as `session.get` receives it: the URL and the query
      parameters it appends. */
  datatype Request = Request(url: string, params: seq<(string, string)>)

  /** The server and everything on the way to it: what the `attempt`-th try
      (counting from 0) of one `_fetch` call for a request comes to. */
  type Network = (Request, nat) -> Outcome

  /** One attempt as it was sent: the request, the headers and the proxy. */
  datatype Attempt = Attempt(request: Request, headers: map<string, string>, proxy: Option<string>)

  /** The retry loop from attempt `attempt` on: `Value(Some(body))` for the
      first success, `Raised` for an exception other than `ClientError`, and
      `Value(None)` (the bare `return`) when the last attempt also raised a
      `ClientError`. */
  function Settle(net: Network, req: Request, attempt: nat): Result<Option<string>>
    requires attempt < NumberOfRetries
    decreases NumberOfRetries - attempt
  {
    match net(req, attempt)
    case Ok(body) => Value(Some(body))
    case OtherErr => Raised
    case ClientErr =>
      if attempt == NumberOfRetries - 1 then Value(None) else Settle(net, req, attempt + 1)
  }

  /** What `_fetch` returns for `req`, or `Raised` when it raises. */
  function FetchSpec(net: Network, req: Request): Result<Option<string>>
  {
    Settle(net, req, 0)
  }

  /** How many attempts the loop makes from attempt `attempt` on: it goes on
      only past a `ClientError`, and never past the last attempt. */
  function AttemptsMade(net: Network, req: Request, attempt: nat): (n: nat)
    requires attempt < NumberOfRetries
    ensures attempt < n <= NumberOfRetries
    ensures forall k :: attempt <= k < n - 1 ==> net(req, k) == ClientErr
    ensures n < NumberOfRetries ==> net(req, n - 1) != ClientErr
    decreases NumberOfRetries - attempt
  {
    if net(req, attempt) == ClientErr && attempt < NumberOfRetries - 1 then AttemptsMade(net, req, attempt + 1)
    else attempt + 1
  }

  /** The number of attempts one `_fetch` call makes. */
  function AttemptCount(net: Network, req: Request): nat
  {
    AttemptsMade(net, req, 0)
  }

  /** The pauses between attempts: each a whole number of seconds from
      `RangeFrom` to `RangeTo`. */
  predicate Paced(sleeps: seq<nat>)
  {
    forall i :: 0 <= i < |sleeps| ==> RangeFrom <= sleeps[i] <= RangeTo
  }

  /** All attempts from `attempt` up to (not including) `upTo` raised a
      `ClientError`. */
  predicate AllClientErrors(net: Network, req: Request, attempt: nat, upTo: nat)
  {
    forall k :: attempt <= k < upTo ==> net(req, k) == ClientErr
  }

  /** The loop gives up with `None` exactly when every remaining attempt
      raised a `ClientError`. */
  lemma {:induction false} SettleNone(net: Network, req: Request, attempt: nat)
    requires attempt < NumberOfRetries
    ensures Settle(net, req, attempt) == Value(None) <==> AllClientErrors(net, req, attempt, NumberOfRetries)
    decreases NumberOfRetries - attempt
  {
    if net(req, attempt) == ClientErr && attempt < NumberOfRetries - 1 {
      SettleNone(net, req, attempt + 1);
    }
  }

  /** The loop returns a body exactly when some attempt succeeded with it and
      every attempt before it raised a `ClientError`. */
  lemma {:induction false} SettleBody(net: Network, req: Request, attempt: nat, body: string)
    requires attempt < NumberOfRetries
    ensures Settle(net, req, attempt) == Value(Some(body)) <==>
            exists k :: attempt <= k < NumberOfRetries && AllClientErrors(net, req, attempt, k) && net(req, k) == Ok(body)
    decreases NumberOfRetries - attempt
  {
    if net(req, attempt) == ClientErr && attempt < NumberOfRetries - 1 {
      SettleBody(net, req, attempt + 1, body);
      if exists k :: attempt <= k < NumberOfRetries && AllClientErrors(net, req, attempt, k) && net(req, k) == Ok(body) {
        var k :| attempt <= k < NumberOfRetries && AllClientErrors(net, req, attempt, k) && net(req, k) == Ok(body);
        assert k != attempt;
        assert AllClientErrors(net, req, attempt + 1, k);
      }
      if exists k :: attempt + 1 <= k < NumberOfRetries && AllClientErrors(net, req, attempt + 1, k) && net(req, k) == Ok(body) {
        var k :| attempt + 1 <= k < NumberOfRetries && AllClientErrors(net, req, attempt + 1, k) && net(req, k) == Ok(body);
        assert AllClientErrors(net, req, attempt, k);
      }
    } else {
      if exists k :: attempt <= k < NumberOfRetries && AllClientErrors(net, req, attempt, k) && net(req, k) == Ok(body) {
        var k :| attempt <= k < NumberOfRetries && AllClientErrors(net, req, attempt, k) && net(req, k) == Ok(body);
        assert k == attempt;
      }
      assert net(req, attempt) == Ok(body) ==> AllClientErrors(net, req, attempt, attempt);
    }
  }

  /** `_fetch` returns `None` exactly when all three attempts raised a
      `ClientError`. */
  lemma FetchNone(net: Network, req: Request)
    ensures FetchSpec(net, req) == Value(None) <==> AllClientErrors(net, req, 0, NumberOfRetries)
  {
    SettleNone(net, req, 0);
  }

  /** `_fetch` returns `body` exactly when some attempt succeeded with it
      after only `ClientError`s. */
  lemma FetchBody(net: Network, req: Request, body: string)
    ensures FetchSpec(net, req) == Value(Some(body)) <==>
            exists k :: 0 <= k < NumberOfRetries && AllClientErrors(net, req, 0, k) && net(req, k) == Ok(body)
  {
    SettleBody(net, req, 0, body);
  }

  /** `_fetch` raises exactly when the attempt after the `ClientError`s raised
      something else; the attempts it made are the ones up to and including
      the deciding attempt. */
  lemma FetchRaised(net: Network, req: Request)
    ensures FetchSpec(net, req) == Raised <==> net(req, AttemptCount(net, req) - 1) == OtherErr
  {
    SettleDecidedBy(net, req, 0);
  }

  /** The loop's result is decided by the outcome of its last attempt. */
  lemma {:induction false} SettleDecidedBy(net: Network, req: Request, attempt: nat)
    requires attempt < NumberOfRetries
    ensures var n := AttemptsMade(net, req, attempt);
            Settle(net, req, attempt) == match net(req, n - 1)
                                         case Ok(body) => Value(Some(body))
                                         case OtherErr => Raised
                                         case ClientErr => Value(None)
    decreases NumberOfRetries - attempt
  {
    if net(req, attempt) == ClientErr && attempt < NumberOfRetries - 1 {
      SettleDecidedBy(net, req, attempt + 1);
    }
  }

  /** A `503` followed by a `200` returns the second response's body, after
      two attempts. */
  lemma RetryThenSucceed(net: Network, req: Request, body: string)
    requires net(req, 0) == ClientErr && net(req, 1) == Ok(body)
    ensures FetchSpec(net, req) == Value(Some(body))
    ensures AttemptCount(net, req) == 2
  {
  }

  /** A server that always answers `503` makes `_fetch` return `None` after
      three attempts. */
  lemma PersistentFailure(net: Network, req: Request)
    requires forall k :: net(req, k) == ClientErr
    ensures FetchSpec(net, req) == Value(None)
    ensures AttemptCount(net, req) == NumberOfRetries
  {
  }
}
