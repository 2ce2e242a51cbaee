/** The Python client: invoke with an asserted price, poll a receipt to a terminal status, and
    rediscover the price once after a mismatch. Each method of the client is proved to perform
    exactly the run that a function of the environment describes; the protocol's properties are
    proved about those runs.
 */
module PythonClient {
  import opened Text
  import opened Money
  import opened Gateway

  function Interval(poll: int): int { if poll < 1 then 1 else poll }

  /** The error a response is turned into, if any. */
  function ErrorOf(h: Http, discovery: bool): Option<ClientError> {
    if !(400 <= h.status < 600) then None
    else if h.status == 401 then Some(Authentication)
    else if h.status == 402 then
      if h.detail.Coded? && h.detail.code in {"BUDGET_EXHAUSTED", "CREDENTIAL_CREDIT_LIMIT_EXCEEDED"}
      then Some(InsufficientFunds) else Some(BudgetExceeded)
    else if IsMismatchAnswer(h) then Some(PriceMismatch(h.detail.expectedPrice, h.detail.currentPrice))
    else if discovery then Some(Discovery)
    else Some(InvokeFailed)
  }

  // ----- runs -----

  function LookupRun(env: Env, w: World, id: string): Run {
    if Strip(id) == "" then Run(Err(InvalidArgument), w)
    else
      var w' := Send(env, w, GetReceipt(Strip(id)));
      match ErrorOf(env.answer(w'.log), false)
      case Some(e) => Run(Err(e), w')
      case None => Run(Ok(env.answer(w'.log).receipt), w')
  }

  function WaitRun(env: Env, w: World, id: string, limit: real, interval: int): Run
    requires interval >= 1
    decreases Remaining(limit, w.now)
  {
    var r := LookupRun(env, w, id);
    if r.outcome.Err? || IsTerminal(r.outcome.value) then r
    else if r.world.now + interval as real > limit then Run(Err(TimedOut), r.world)
    else WaitRun(env, Sleep(r.world, interval as real), id, limit, interval)
  }

  datatype InvokeArgs = InvokeArgs(
    serviceId: string, cost: Option<Cost>, maxCost: Option<string>, key: Option<string>,
    pollTimeout: int, allowMissingCost: bool)

  predicate ValidArgs(a: InvokeArgs) {
    Strip(a.serviceId) != "" && (a.cost.Some? || a.allowMissingCost)
  }

  /** The price as it is sent: a number rounded to six places, a text as it is. */
  function SentCost(c: Option<Cost>): Option<Cost> {
    match c
    case Some(Number(v)) => Some(Number(Round6(v)))
    case _ => c
  }

  /** The body of an invoke; `uuid` is the generated key used when none is given. */
  function InvokeBody(a: InvokeArgs, uuid: string): (r: Request)
    ensures r.PostInvoke?
  {
    var key := if a.key.Some? && a.key.value != "" then a.key.value else uuid;
    PostInvoke(Strip(a.serviceId), Strip(key), SentCost(a.cost), a.maxCost)
  }

  function InvokeRun(env: Env, w: World, a: InvokeArgs, uuid: string): Run {
    if !ValidArgs(a) then Run(Err(InvalidArgument), w)
    else
      var w' := Send(env, w, InvokeBody(a, uuid));
      var h := env.answer(w'.log);
      match ErrorOf(h, false)
      case Some(e) => Run(Err(e), w')
      case None =>
        if IsTerminal(h.receipt) then Run(Ok(h.receipt), w')
        else WaitRun(env, w', h.receipt.invocationId, w'.now + a.pollTimeout as real, 1)
  }

  /** The first page of ten. */
  function SearchRequest(query: string, serviceId: string): Request {
    Search(if query != "" then query else serviceId, 1, 10)
  }

  function RetryArgs(a: InvokeArgs, price: real): InvokeArgs {
    a.(cost := Some(Number(price)))
  }

  function RediscoveryRun(env: Env, w: World, a: InvokeArgs, query: string, retries: int,
                          uuid1: string, uuid2: string): Run
  {
    var first := InvokeRun(env, w, a, uuid1);
    if !(first.outcome.Err? && first.outcome.error.PriceMismatch?) || retries <= 0 then first
    else
      var w' := Send(env, first.world, SearchRequest(query, a.serviceId));
      var h := env.answer(w'.log);
      match ErrorOf(h, true)
      case Some(e) => Run(Err(e), w')
      case None =>
        var price := LivePrice(h.services, a.serviceId, first.outcome.error.current);
        if price <= 0.0 then Run(first.outcome, w')
        else InvokeRun(env, w', RetryArgs(a, price), uuid2)
  }

  // ----- the client -----

  class SynapseClient {
    const env: Env
    var log: seq<Event>
    var now: real

    constructor (env: Env)
      ensures this.env == env && State() == World([], 0.0)
    {
      this.env := env;
      log, now := [], 0.0;
    }

    ghost function State(): World
      reads this
    {
      World(log, now)
    }

    method Request(r: Request) returns (h: Http)
      modifies this
      ensures State() == Send(env, old(State()), r)
      ensures h == env.answer(log)
    {
      log := log + [Sent(now, r)];
      now := now + env.lag(log);
      h := env.answer(log);
    }

    method Pause(duration: real)
      modifies this
      ensures State() == Sleep(old(State()), duration)
    {
      log, now := log + [Slept(now, duration)], now + duration;
    }

    method GetInvocationReceipt(id: string) returns (r: Outcome)
      modifies this
      ensures Run(r, State()) == LookupRun(env, old(State()), id)
    {
      if Strip(id) == "" {
        return Err(InvalidArgument);
      }
      var h := Request(GetReceipt(Strip(id)));
      match ErrorOf(h, false)
      case Some(e) => r := Err(e);
      case None => r := Ok(h.receipt);
    }

    method WaitForInvocation(id: string, maxWait: int, poll: int) returns (r: Outcome)
      modifies this
      ensures Run(r, State()) == WaitRun(env, old(State()), id, old(now) + maxWait as real, Interval(poll))
    {
      var started := now;
      ghost var run := WaitRun(env, State(), id, started + maxWait as real, Interval(poll));
      while true
        invariant run == WaitRun(env, State(), id, started + maxWait as real, Interval(poll))
        decreases Remaining(started + maxWait as real, now)
      {
        r := GetInvocationReceipt(id);
        if r.Err? {
          return;
        }
        if IsTerminal(r.value) {
          return;
        }
        if now - started + Interval(poll) as real > maxWait as real {
          return Err(TimedOut);
        }
        Pause(Interval(poll) as real);
      }
    }

    method Invoke(a: InvokeArgs, uuid: string) returns (r: Outcome)
      modifies this
      ensures Run(r, State()) == InvokeRun(env, old(State()), a, uuid)
    {
      if Strip(a.serviceId) == "" {
        return Err(InvalidArgument);
      }
      if a.cost.None? && !a.allowMissingCost {
        return Err(InvalidArgument);
      }
      var h := Request(InvokeBody(a, uuid));
      match ErrorOf(h, false) {
        case Some(e) => { return Err(e); }
        case None => {}
      }
      if IsTerminal(h.receipt) {
        return Ok(h.receipt);
      }
      r := WaitForInvocation(h.receipt.invocationId, a.pollTimeout, 1);
    }

    method InvokeLlm(serviceId: string, streaming: bool, maxCost: Option<string>, key: Option<string>,
                     pollTimeout: int, uuid: string)
      returns (r: Outcome)
      modifies this
      ensures streaming ==> r == Err(InvokeFailed) && State() == old(State())
      ensures !streaming ==>
        Run(r, State())
          == InvokeRun(env, old(State()), InvokeArgs(serviceId, None, maxCost, key, pollTimeout, true), uuid)
    {
      if streaming {
        return Err(InvokeFailed);
      }
      r := Invoke(InvokeArgs(serviceId, None, maxCost, key, pollTimeout, true), uuid);
    }

    /** The loop over the services of the first page. */
    method RediscoveredPrice(services: seq<Service>, serviceId: string, fallback: real) returns (price: real)
      ensures price == LivePrice(services, serviceId, fallback)
    {
      for i := 0 to |services|
        invariant LivePrice(services, serviceId, fallback) == LivePrice(services[i..], serviceId, fallback)
      {
        if services[i].serviceId == serviceId {
          return match services[i].price case Some(p) => p case None => fallback;
        }
      }
      price := fallback;
    }

    /** A price is required here, and no cap is taken. */
    method InvokeWithRediscovery(serviceId: string, cost: Cost, key: Option<string>, pollTimeout: int, query: string,
                                 retries: int, uuid1: string, uuid2: string)
      returns (r: Outcome)
      modifies this
      ensures var a := InvokeArgs(serviceId, Some(cost), None, key, pollTimeout, false);
        Run(r, State()) == RediscoveryRun(env, old(State()), a, query, retries, uuid1, uuid2)
    {
      var a := InvokeArgs(serviceId, Some(cost), None, key, pollTimeout, false);
      var first := Invoke(a, uuid1);
      if first.Ok? || !first.error.PriceMismatch? {
        return first;
      }
      if retries <= 0 {
        return first;
      }
      var h := Request(SearchRequest(query, serviceId));
      match ErrorOf(h, true) {
        case Some(e) => { return Err(e); }
        case None => {}
      }
      var livePrice := RediscoveredPrice(h.services, serviceId, first.error.current);
      if livePrice <= 0.0 {
        return first;
      }
      r := Invoke(RetryArgs(a, livePrice), uuid2);
    }
  }
}
