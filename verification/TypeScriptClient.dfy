/** The TypeScript client: invoke and invokeLlm, and polling against a deadline. Its clock counts
    milliseconds.
 */
module TypeScriptClient {
  import opened Text
  import opened Gateway

  /** A response is an error outside 200..299, before any mapping of `invoke`. */
  function HttpError(h: Http): Option<ClientError> {
    if 200 <= h.status < 300 then None
    else if h.status == 401 then Some(Authentication)
    else if h.status == 402 then Some(InsufficientFunds)
    else if IsMismatchAnswer(h) then Some(PriceMismatch(h.detail.expectedPrice, h.detail.currentPrice))
    else Some(Unmapped)
  }

  /** What `invoke` makes of an error of its own request. */
  function InvokeError(e: ClientError): ClientError {
    if e.Authentication? || e.InsufficientFunds? || e.PriceMismatch? then e else InvokeFailed
  }

  /** A timer delay outside 1..2^31-1 milliseconds counts as one millisecond. */
  function TimerDelay(ms: int): (d: int)
    ensures d >= 1
  {
    if 1 <= ms <= 0x7fff_ffff then ms else 1
  }

  datatype Options = Options(key: Option<string>, pollTimeoutMs: Option<int>, pollIntervalMs: Option<int>)

  datatype InvokeArgs = InvokeArgs(serviceId: string, cost: Option<Cost>, options: Options)

  function Timeout(o: Options): int { GetOr(o.pollTimeoutMs, 90_000) }
  function Delay(o: Options): int { TimerDelay(GetOr(o.pollIntervalMs, 1_500)) }

  // ----- runs -----

  function LookupRun(env: Env, w: World, id: string): Run {
    var w' := Send(env, w, GetReceipt(id));
    match HttpError(env.answer(w'.log))
    case Some(e) => Run(Err(e), w')
    case None => Run(Ok(env.answer(w'.log).receipt), w')
  }

  function WaitRun(env: Env, w: World, id: string, deadline: real, delay: int): Run
    requires delay >= 1
    decreases Remaining(deadline, w.now)
  {
    if w.now >= deadline then Run(Err(TimedOut), w)
    else
      var r := LookupRun(env, w, id);
      if r.outcome.Err? || IsTerminal(r.outcome.value) then r
      else WaitRun(env, Sleep(r.world, delay as real), id, deadline, delay)
  }

  /** What is made of the answer to an invoke: a terminal receipt is returned, an open one is
      polled unless the timeout is zero. Errors of the polling are not mapped. */
  function CompleteRun(env: Env, w: World, receipt: Receipt, o: Options): Run {
    if IsTerminal(receipt) then Run(Ok(receipt), w)
    else if o.pollTimeoutMs == Some(0) then Run(Ok(receipt), w)
    else WaitRun(env, w, receipt.invocationId, w.now + Timeout(o) as real, Delay(o))
  }

  function PostRun(env: Env, w: World, body: Request, o: Options): Run
    requires body.PostInvoke?
  {
    var w' := Send(env, w, body);
    var h := env.answer(w'.log);
    match HttpError(h)
    case Some(e) => Run(Err(InvokeError(e)), w')
    case None => CompleteRun(env, w', h.receipt, o)
  }

  predicate BlankCost(c: Option<Cost>) {
    match c
    case None => true
    case Some(Number(_)) => false
    case Some(Text(t)) => Trim(IsSpace, t) == ""
  }

  predicate ValidArgs(a: InvokeArgs) {
    Trim(IsSpace, a.serviceId) != "" && !BlankCost(a.cost)
  }

  /** The price is sent as given; `uuid` is the generated key used when none is given. */
  function InvokeBody(a: InvokeArgs, uuid: string): (r: Request)
    ensures r.PostInvoke?
  {
    PostInvoke(a.serviceId, GetOr(a.options.key, uuid), a.cost, None)
  }

  function InvokeRun(env: Env, w: World, a: InvokeArgs, uuid: string): Run {
    if !ValidArgs(a) then Run(Err(InvalidArgument), w) else PostRun(env, w, InvokeBody(a, uuid), a.options)
  }

  function InvokeLlmRun(env: Env, w: World, serviceId: string, streaming: bool, maxCost: Option<string>, o: Options,
                        uuid: string): Run
  {
    if streaming then Run(Err(InvokeFailed), w)
    else PostRun(env, w, PostInvoke(serviceId, GetOr(o.key, uuid), None, maxCost), o)
  }

  function SearchRequest(query: Option<string>, serviceId: string): Request {
    Search(Trim(IsSpace, GetOr(query, serviceId)), 1, 10)
  }

  function RetryArgs(a: InvokeArgs, price: real): InvokeArgs {
    a.(cost := Some(Number(price)))
  }

  /** Every failure of a search becomes a discovery error. */
  function RediscoveryRun(env: Env, w: World, a: InvokeArgs, query: Option<string>, retries: Option<int>,
                          uuid1: string, uuid2: string): Run
  {
    var first := InvokeRun(env, w, a, uuid1);
    if !(first.outcome.Err? && first.outcome.error.PriceMismatch?) || GetOr(retries, 1) <= 0 then first
    else
      var w' := Send(env, first.world, SearchRequest(query, a.serviceId));
      var h := env.answer(w'.log);
      if HttpError(h).Some? then Run(Err(Discovery), w')
      else
        var price := LivePrice(h.services, a.serviceId, first.outcome.error.current);
        if price <= 0.0 then Run(first.outcome, w') else InvokeRun(env, w', RetryArgs(a, price), uuid2)
  }

  // ----- the client -----

  class SynapseClient {
    const env: Env
    var log: seq<Event>
    var now: real

    constructor (env: Env)
      ensures this.env == env && State() == World([], 0.0)
    {
      this.env := env;
      log, now := [], 0.0;
    }

    ghost function State(): World
      reads this
    {
      World(log, now)
    }

    method Fetch(r: Request) returns (h: Http)
      modifies this
      ensures State() == Send(env, old(State()), r)
      ensures h == env.answer(log)
    {
      log := log + [Sent(now, r)];
      now := now + env.lag(log);
      h := env.answer(log);
    }

    method Pause(duration: real)
      modifies this
      ensures State() == Sleep(old(State()), duration)
    {
      log, now := log + [Slept(now, duration)], now + duration;
    }

    method GetInvocation(id: string) returns (r: Outcome)
      modifies this
      ensures Run(r, State()) == LookupRun(env, old(State()), id)
    {
      var h := Fetch(GetReceipt(id));
      match HttpError(h)
      case Some(e) => r := Err(e);
      case None => r := Ok(h.receipt);
    }

    method WaitForInvocation(id: string, o: Options) returns (r: Outcome)
      modifies this
      ensures Run(r, State()) == WaitRun(env, old(State()), id, old(now) + Timeout(o) as real, Delay(o))
    {
      var deadline := now + Timeout(o) as real;
      ghost var run := WaitRun(env, State(), id, deadline, Delay(o));
      while now < deadline
        invariant run == WaitRun(env, State(), id, deadline, Delay(o))
        decreases Remaining(deadline, now)
      {
        r := GetInvocation(id);
        if r.Err? {
          return;
        }
        if IsTerminal(r.value) {
          return;
        }
        Pause(Delay(o) as real);
      }
      r := Err(TimedOut);
    }

    method CompleteInvocation(receipt: Receipt, o: Options) returns (r: Outcome)
      modifies this
      ensures Run(r, State()) == CompleteRun(env, old(State()), receipt, o)
    {
      if IsTerminal(receipt) {
        return Ok(receipt);
      }
      if o.pollTimeoutMs == Some(0) {
        return Ok(receipt);
      }
      r := WaitForInvocation(receipt.invocationId, o);
    }

    method Invoke(a: InvokeArgs, uuid: string) returns (r: Outcome)
      modifies this
      ensures Run(r, State()) == InvokeRun(env, old(State()), a, uuid)
    {
      if Trim(IsSpace, a.serviceId) == "" {
        return Err(InvalidArgument);
      }
      if BlankCost(a.cost) {
        return Err(InvalidArgument);
      }
      var h := Fetch(InvokeBody(a, uuid));
      match HttpError(h)
      case Some(e) => r := Err(InvokeError(e));
      case None => r := CompleteInvocation(h.receipt, a.options);
    }

    method InvokeLlm(serviceId: string, streaming: bool, maxCost: Option<string>, o: Options, uuid: string)
      returns (r: Outcome)
      modifies this
      ensures Run(r, State()) == InvokeLlmRun(env, old(State()), serviceId, streaming, maxCost, o, uuid)
    {
      if streaming {
        return Err(InvokeFailed);
      }
      var h := Fetch(PostInvoke(serviceId, GetOr(o.key, uuid), None, maxCost));
      match HttpError(h)
      case Some(e) => r := Err(InvokeError(e));
      case None => r := CompleteInvocation(h.receipt, o);
    }

    method InvokeWithRediscovery(a: InvokeArgs, query: Option<string>, retries: Option<int>, uuid1: string,
                                 uuid2: string)
      returns (r: Outcome)
      modifies this
      ensures Run(r, State()) == RediscoveryRun(env, old(State()), a, query, retries, uuid1, uuid2)
    {
      var first := Invoke(a, uuid1);
      if first.Ok? || !first.error.PriceMismatch? || GetOr(retries, 1) <= 0 {
        return first;
      }
      var h := Fetch(SearchRequest(query, a.serviceId));
      if HttpError(h).Some? {
        return Err(Discovery);
      }
      var livePrice := LivePrice(h.services, a.serviceId, first.error.current);
      if livePrice <= 0.0 {
        return first;
      }
      r := Invoke(RetryArgs(a, livePrice), uuid2);
    }
  }
}
