/** The gateway and the clock as the clients see them: an arbitrary answer to every request, chosen
    with full knowledge of everything sent and slept before, and arbitrary non-negative delays.
 */
module Gateway {
  import opened Text

  datatype Receipt = Receipt(invocationId: string, status: string, charged: real)

  const TERMINAL_STATUSES := {"SUCCEEDED", "FAILED_RETRYABLE", "FAILED_FINAL", "SETTLED"}

  predicate IsTerminal(r: Receipt) { r.status in TERMINAL_STATUSES }

  /** The statuses after which an invocation does not change. */
  lemma TerminalExactly(r: Receipt)
    ensures IsTerminal(r) <==>
      || r.status == "SUCCEEDED" || r.status == "SETTLED"
      || r.status == "FAILED_RETRYABLE" || r.status == "FAILED_FINAL"
  {
  }

  datatype Service = Service(serviceId: string, price: Option<real>)

  /** The `detail` member of an error body; a missing price reads zero. */
  datatype Detail = NoDetail | Coded(code: string, expectedPrice: real, currentPrice: real)

  /** A response; the members an answer does not carry have the clients' default values. */
  datatype Http = Http(status: nat, detail: Detail, receipt: Receipt, services: seq<Service>)

  datatype Cost = Number(value: real) | Text(text: string)

  datatype Request =
    | PostInvoke(serviceId: string, key: string, cost: Option<Cost>, maxCost: Option<string>)
    | Search(query: string, page: int, pageSize: int)
    | GetReceipt(invocationId: string)

  /** A request and the time it was sent at, or a sleep and the time it began at. */
  datatype Event = Sent(at: real, request: Request) | Slept(at: real, duration: real)

  type Lag = x: real | 0.0 <= x witness 0.0

  /** The answer to, and the delay of, the request that ends a history. */
  datatype Env = Env(answer: seq<Event> -> Http, lag: seq<Event> -> Lag)

  datatype World = World(log: seq<Event>, now: real)

  /** The history in which a request was just sent. */
  function PostedLog(w: World, r: Request): seq<Event> { w.log + [Sent(w.now, r)] }

  function Send(env: Env, w: World, r: Request): World {
    var log := PostedLog(w, r);
    World(log, w.now + env.lag(log))
  }

  function Sleep(w: World, duration: real): World {
    World(w.log + [Slept(w.now, duration)], w.now + duration)
  }

  datatype ClientError =
    | Authentication | BudgetExceeded | InsufficientFunds
    | PriceMismatch(expected: real, current: real)
    | Discovery | InvokeFailed | TimedOut | InvalidArgument | Unmapped

  type Outcome = Result<Receipt, ClientError>

  datatype Run = Run(outcome: Outcome, world: World)

  /** The run ended in a price mismatch. */
  predicate Mismatched(r: Run) { r.outcome.Err? && r.outcome.error.PriceMismatch? }

  /** A bound on the rounds of polling still possible before `limit`. */
  function Remaining(limit: real, now: real): nat {
    if now > limit then 0 else 1 + (limit - now).Floor
  }

  predicate IsMismatchAnswer(h: Http) {
    h.status == 422 && h.detail.Coded? && h.detail.code == "PRICE_MISMATCH"
  }

  // ----- the live price -----

  /** The price of the first service that matches, or the fallback. */
  function LivePrice(services: seq<Service>, serviceId: string, fallback: real): real {
    if services == [] then fallback
    else if services[0].serviceId == serviceId then
      match services[0].price case Some(p) => p case None => fallback
    else LivePrice(services[1..], serviceId, fallback)
  }

  predicate FirstMatch(services: seq<Service>, id: string, k: nat) {
    k < |services| && services[k].serviceId == id && forall j :: 0 <= j < k ==> services[j].serviceId != id
  }

  /** The live price is that of the first service with the id, if it states one, else the fallback. */
  lemma {:induction false} LivePriceIsFirstMatch(services: seq<Service>, id: string, fallback: real, k: nat)
    requires FirstMatch(services, id, k)
    ensures LivePrice(services, id, fallback)
         == match services[k].price case Some(p) => p case None => fallback
  {
    if k > 0 {
      assert forall j :: 0 <= j < k ==> services[1..][j] == services[j + 1];
      LivePriceIsFirstMatch(services[1..], id, fallback, k - 1);
    }
  }

  lemma {:induction false} LivePriceWithoutMatch(services: seq<Service>, id: string, fallback: real)
    requires forall s :: s in services ==> s.serviceId != id
    ensures LivePrice(services, id, fallback) == fallback
  {
    if services != [] {
      LivePriceWithoutMatch(services[1..], id, fallback);
    }
  }

  // ----- what a history holds -----

  predicate IsPost(e: Event) { e.Sent? && e.request.PostInvoke? }
  predicate IsSearch(e: Event) { e.Sent? && e.request.Search? }
  predicate IsLookup(e: Event) { e.Sent? && e.request.GetReceipt? }
  predicate IsSleep(e: Event) { e.Slept? }

  function Count(p: Event -> bool, log: seq<Event>): nat {
    if log == [] then 0 else Count(p, log[..|log| - 1]) + if p(log[|log| - 1]) then 1 else 0
  }

  /** The invoke requests of a history, in order. */
  function Posts(log: seq<Event>): seq<Request> {
    if log == [] then []
    else Posts(log[..|log| - 1]) + if IsPost(log[|log| - 1]) then [log[|log| - 1].request] else []
  }

  lemma CountSnoc(p: Event -> bool, log: seq<Event>, e: Event)
    ensures Count(p, log + [e]) == Count(p, log) + if p(e) then 1 else 0
  {
    assert (log + [e])[..|log|] == log;
  }

  lemma PostsSnoc(log: seq<Event>, e: Event)
    ensures Posts(log + [e]) == Posts(log) + if IsPost(e) then [e.request] else []
  {
    assert (log + [e])[..|log|] == log;
  }

  /** Every sleep in the part of `log` behind the first `from` events ends within `limit`. */
  predicate SleepsWithin(log: seq<Event>, from: nat, limit: real) {
    forall i :: from <= i < |log| && log[i].Slept? ==> log[i].at + log[i].duration <= limit
  }

  /** Every lookup in that part was sent before `limit`. */
  predicate LooksUpBefore(log: seq<Event>, from: nat, limit: real) {
    forall i :: from <= i < |log| && IsLookup(log[i]) ==> log[i].at < limit
  }

  /** Behind the first `from` events stand only lookups of `id` and sleeps of one length. */
  predicate PollsFor(log: seq<Event>, from: nat, id: string, duration: real) {
    forall i :: from <= i < |log| ==>
      match log[i]
      case Sent(_, request) => request == GetReceipt(id)
      case Slept(_, d) => d == duration
  }

  lemma PollsForMore(log: seq<Event>, from: nat, from': nat, id: string, duration: real)
    requires from <= from' <= |log|
    requires PollsFor(log[..from'], from, id, duration) && PollsFor(log, from', id, duration)
    ensures PollsFor(log, from, id, duration)
  {
    assert forall i :: from <= i < from' ==> log[i] == log[..from'][i];
  }

  // ----- what a run adds to a history -----

  /** What polling adds to a history: no invoke and no search, only lookups and sleeps. */
  ghost predicate OnlyPolls(w: World, w': World) {
    && w.log <= w'.log && w.now <= w'.now
    && Posts(w'.log) == Posts(w.log)
    && Count(IsSearch, w'.log) == Count(IsSearch, w.log)
  }

  /** The time that `n` intervals take. */
  function Times(n: int, interval: int): real { (n * interval) as real }

  lemma TimesNext(n: int, interval: int)
    ensures Times(n + 1, interval) == Times(n, interval) + interval as real
  {
    assert (n + 1) * interval == n * interval + interval;
  }

  function Lookups(w: World, w': World): int { Count(IsLookup, w'.log) - Count(IsLookup, w.log) }
  function Sleeps(w: World, w': World): int { Count(IsSleep, w'.log) - Count(IsSleep, w.log) }

  lemma SendCounts(env: Env, w: World, r: Request)
    ensures var w' := Send(env, w, r);
      && w.log <= w'.log && w.now <= w'.now
      && Posts(w'.log) == Posts(w.log) + (if r.PostInvoke? then [r] else [])
      && Count(IsSearch, w'.log) == Count(IsSearch, w.log) + (if r.Search? then 1 else 0)
      && Lookups(w, w') == (if r.GetReceipt? then 1 else 0)
      && Sleeps(w, w') == 0
  {
    PostsSnoc(w.log, Sent(w.now, r));
    CountSnoc(IsSearch, w.log, Sent(w.now, r));
    CountSnoc(IsLookup, w.log, Sent(w.now, r));
    CountSnoc(IsSleep, w.log, Sent(w.now, r));
  }

  lemma SleepCounts(w: World, d: real)
    requires d >= 0.0
    ensures OnlyPolls(w, Sleep(w, d))
    ensures Lookups(w, Sleep(w, d)) == 0 && Sleeps(w, Sleep(w, d)) == 1
  {
    var e := Slept(w.now, d);
    PostsSnoc(w.log, e);
    CountSnoc(IsSearch, w.log, e);
    CountSnoc(IsLookup, w.log, e);
    CountSnoc(IsSleep, w.log, e);
  }

  /** The receipt a run returns is the answer to the last thing it sent. */
  predicate IsLastAnswer(env: Env, log: seq<Event>, receipt: Receipt) {
    log != [] && log[|log| - 1].Sent? && env.answer(log).receipt == receipt
  }

  /** What a run adds to a history: these posts, and at most one search. */
  ghost predicate Adds(w: World, w': World, posts: seq<Request>) {
    && w.log <= w'.log
    && Posts(w'.log) == Posts(w.log) + posts
    && Count(IsSearch, w'.log) <= Count(IsSearch, w.log) + 1
  }

  lemma AddsThen(w: World, w': World, w'': World, posts: seq<Request>, posts': seq<Request>)
    requires Adds(w, w', posts) && Adds(w', w'', posts')
    requires Count(IsSearch, w''.log) <= Count(IsSearch, w.log) + 1
    ensures Adds(w, w'', posts + posts')
  {
  }

  ghost predicate EndsWell(env: Env, r: Run) {
    r.outcome.Ok? ==> IsTerminal(r.outcome.value) && IsLastAnswer(env, r.world.log, r.outcome.value)
  }
}
