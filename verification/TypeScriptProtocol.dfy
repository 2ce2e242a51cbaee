/** What holds of every run of the TypeScript client, whatever the gateway answers.
 */
module TypeScriptProtocol {
  import opened Positional
  import opened Text
  import opened Gateway
  import opened ChargingRule
  import opened TypeScriptClient

  // ----- polling -----

  /** The error is the answer to the lookup that was sent last. */
  ghost predicate IsLastError(env: Env, log: seq<Event>, e: ClientError) {
    log != [] && IsLookup(log[|log| - 1]) && HttpError(env.answer(log)) == Some(e)
  }

  /** What polling from `w` comes to. It sends nothing but lookups, all before the deadline, and
      sleeps after each that leaves the invocation open. It ends with a terminal receipt or an
      error, each the gateway's last word, or else gives up, and that not before the deadline. */
  ghost predicate PollFacts(env: Env, w: World, deadline: real, delay: int, r: Run) {
    var n, sleeps := Lookups(w, r.world), Sleeps(w, r.world);
    && OnlyPolls(w, r.world)
    && LooksUpBefore(r.world.log, |w.log|, deadline)
    && EndsWell(env, r)
    && (r.outcome.Err? && r.outcome != Err(TimedOut) ==> IsLastError(env, r.world.log, r.outcome.error))
    && (r.outcome == Err(TimedOut) ==> r.world.now >= deadline && n == sleeps)
    && (r.outcome != Err(TimedOut) ==> n == sleeps + 1)
    && n >= 0 && (n > 0 <==> w.now < deadline)
    && (n > 0 ==> w.now + Times(n - 1, delay) < deadline)
  }

  lemma LookupCounts(env: Env, w: World, id: string)
    ensures var w' := LookupRun(env, w, id).world;
      OnlyPolls(w, w') && Sleeps(w, w') == 0 && Lookups(w, w') == 1
  {
    SendCounts(env, w, GetReceipt(id));
  }

  lemma OneMoreRound(env: Env, w: World, id: string, deadline: real, delay: int, r: Run)
    requires delay >= 1 && w.now < deadline
    requires PollFacts(env, Sleep(Send(env, w, GetReceipt(id)), delay as real), deadline, delay, r)
    ensures PollFacts(env, w, deadline, delay, r)
  {
    var sent := Send(env, w, GetReceipt(id));
    var slept := Sleep(sent, delay as real);
    SendCounts(env, w, GetReceipt(id));
    SleepCounts(sent, delay as real);
    var n := Lookups(slept, r.world);
    assert Lookups(w, r.world) == n + 1;
    assert Sleeps(w, r.world) == Sleeps(slept, r.world) + 1;
    TimesNext(n - 1, delay);
    assert n == 0 ==> Times(n, delay) == 0.0;
    assert forall i :: |w.log| <= i < |slept.log| ==> r.world.log[i] == slept.log[i];
  }

  lemma LastRound(env: Env, w: World, id: string, deadline: real, delay: int)
    requires delay >= 1
    requires var first := LookupRun(env, w, id);
      w.now >= deadline || first.outcome.Err? || IsTerminal(first.outcome.value)
    ensures PollFacts(env, w, deadline, delay, WaitRun(env, w, id, deadline, delay))
  {
    LookupCounts(env, w, id);
  }

  lemma {:induction false} WaitSafety(env: Env, w: World, id: string, deadline: real, delay: int)
    requires delay >= 1
    ensures PollFacts(env, w, deadline, delay, WaitRun(env, w, id, deadline, delay))
    decreases Remaining(deadline, w.now)
  {
    var first := LookupRun(env, w, id);
    if w.now >= deadline || first.outcome.Err? || IsTerminal(first.outcome.value) {
      LastRound(env, w, id, deadline, delay);
    } else {
      var slept := Sleep(first.world, delay as real);
      WaitSafety(env, slept, id, deadline, delay);
      OneMoreRound(env, w, id, deadline, delay, WaitRun(env, slept, id, deadline, delay));
    }
  }

  /** The lookups that fit before the deadline, rounded up. */
  function MaxLookups(o: Options): int {
    if Timeout(o) > 0 then (Timeout(o) + Delay(o) - 1) / Delay(o) else 0
  }

  lemma MaxLookupsPositive(o: Options)
    ensures MaxLookups(o) >= 0
  {
    if Timeout(o) > 0 {
      FitsInto(0, Delay(o), Timeout(o) + Delay(o) - 1);
    }
  }

  /** One wait makes at most ceil(timeout / interval) lookups, at least one if the timeout is
      positive, and none at all if it is not. */
  lemma WaitBound(env: Env, w: World, id: string, o: Options)
    ensures var r := WaitRun(env, w, id, w.now + Timeout(o) as real, Delay(o));
      && (Timeout(o) <= 0 ==> Lookups(w, r.world) == 0 && r.outcome == Err(TimedOut))
      && (Timeout(o) > 0 ==> 1 <= Lookups(w, r.world) <= (Timeout(o) + Delay(o) - 1) / Delay(o))
  {
    var k, limit := Delay(o), w.now + Timeout(o) as real;
    WaitSafety(env, w, id, limit, k);
    var n := Lookups(w, WaitRun(env, w, id, limit, k).world);
    if Timeout(o) > 0 {
      TimesNext(n - 1, k);
      assert Times(n, k) < (Timeout(o) + k) as real;
      FitsInto(n, k, Timeout(o) + k - 1);
    }
  }

  /** What an answer means by itself. */
  function AnswerOutcome(h: Http): Outcome {
    match HttpError(h)
    case Some(e) => Err(e)
    case None => Ok(h.receipt)
  }

  /** Polling asks for the one id, again and again, and pauses for the interval in between; unless it
      gives up, it comes to what the last answer says. */
  lemma {:induction false} WaitOutcome(env: Env, w: World, id: string, deadline: real, delay: int)
    requires delay >= 1
    ensures var r := WaitRun(env, w, id, deadline, delay);
      var h := env.answer(r.world.log);
      && w.log <= r.world.log
      && PollsFor(r.world.log, |w.log|, id, delay as real)
      && (r.outcome != Err(TimedOut) ==> r.outcome == AnswerOutcome(h))
    decreases Remaining(deadline, w.now)
  {
    var first := LookupRun(env, w, id);
    if w.now < deadline && first.outcome.Ok? && !IsTerminal(first.outcome.value) {
      var slept := Sleep(first.world, delay as real);
      var r := WaitRun(env, slept, id, deadline, delay);
      WaitOutcome(env, slept, id, deadline, delay);
      assert r.world.log[..|slept.log|] == slept.log;
      PollsForMore(r.world.log, |w.log|, |slept.log|, id, delay as real);
    }
  }

  // ----- invoke -----

  /** The kinds of error, each with the answers that mean it. */
  lemma ErrorsExactly(h: Http)
    ensures var e := HttpError(h);
      && (e.None? <==> 200 <= h.status <= 299)
      && (e == Some(Authentication) <==> h.status == 401)
      && (e == Some(InsufficientFunds) <==> h.status == 402)
      && (forall x, y ::
            e == Some(PriceMismatch(x, y)) <==> h.status == 422 && h.detail == Coded("PRICE_MISMATCH", x, y))
      && (e.Some? ==> e.value in {Authentication, InsufficientFunds, Unmapped} || e.value.PriceMismatch?)
  {
  }

  /** Behind the answer to a post only polling follows, and what it returns is the last answer. */
  lemma CompleteSafety(env: Env, w: World, receipt: Receipt, o: Options)
    requires IsLastAnswer(env, w.log, receipt)
    ensures var r := CompleteRun(env, w, receipt, o);
      && OnlyPolls(w, r.world)
      && (r.outcome.Ok? ==> IsLastAnswer(env, r.world.log, r.outcome.value))
      && (r.outcome.Ok? && !IsTerminal(r.outcome.value) <==> !IsTerminal(receipt) && o.pollTimeoutMs == Some(0))
      && Lookups(w, r.world) <= MaxLookups(o)
  {
    MaxLookupsPositive(o);
    if !IsTerminal(receipt) && o.pollTimeoutMs != Some(0) {
      WaitSafety(env, w, receipt.invocationId, w.now + Timeout(o) as real, Delay(o));
      WaitBound(env, w, receipt.invocationId, o);
    }
  }

  /** The one answer that `invoke` and `invokeLlm` hand back although it is not terminal. */
  predicate HandedBackOpen(env: Env, w: World, body: Request, o: Options) {
    var h := env.answer(Send(env, w, body).log);
    HttpError(h).None? && !IsTerminal(h.receipt) && o.pollTimeoutMs == Some(0)
  }

  /** An invoke posts its body once and otherwise only polls. If it resolves, its receipt is the
      gateway's last word, and that is terminal unless the poll timeout is zero and the answer to
      the post was open. */
  lemma PostSafety(env: Env, w: World, body: Request, o: Options)
    requires body.PostInvoke?
    ensures var r := PostRun(env, w, body, o);
      && w.log <= r.world.log
      && Posts(r.world.log) == Posts(w.log) + [body]
      && PostedLog(w, body) <= r.world.log
      && Count(IsSearch, r.world.log) == Count(IsSearch, w.log)
      && (r.outcome.Ok? ==> IsLastAnswer(env, r.world.log, r.outcome.value))
      && (r.outcome.Ok? && !IsTerminal(r.outcome.value) <==> HandedBackOpen(env, w, body, o))
      && Lookups(w, r.world) <= MaxLookups(o)
  {
    var w' := Send(env, w, body);
    SendCounts(env, w, body);
    MaxLookupsPositive(o);
    if HttpError(env.answer(w'.log)).None? {
      CompleteSafety(env, w', env.answer(w'.log).receipt, o);
    }
  }

  /** The bodies of both kinds of invoke: nothing is trimmed or rounded, only an LLM call has a cap, and
      only the other kind a price. */
  lemma InvokePosts(env: Env, w: World, a: InvokeArgs, maxCost: Option<string>, uuid: string)
    requires ValidArgs(a)
    ensures var key := if a.options.key.Some? then a.options.key.value else uuid;
      && Posts(InvokeRun(env, w, a, uuid).world.log) == Posts(w.log) + [PostInvoke(a.serviceId, key, a.cost, None)]
      && Posts(InvokeLlmRun(env, w, a.serviceId, false, maxCost, a.options, uuid).world.log)
         == Posts(w.log) + [PostInvoke(a.serviceId, key, None, maxCost)]
      && InvokeLlmRun(env, w, a.serviceId, true, maxCost, a.options, uuid) == Run(Err(InvokeFailed), w)
  {
    var key := if a.options.key.Some? then a.options.key.value else uuid;
    PostSafety(env, w, PostInvoke(a.serviceId, key, a.cost, None), a.options);
    PostSafety(env, w, PostInvoke(a.serviceId, key, None, maxCost), a.options);
  }

  /** An invoke is refused without a request exactly for a blank service id, no price or a blank one. */
  lemma RefusedExactly(env: Env, w: World, a: InvokeArgs, uuid: string)
    ensures Posts(InvokeRun(env, w, a, uuid).world.log) == Posts(w.log)
       <==> || AllOf(IsSpace, a.serviceId) || a.cost == None
            || exists t :: a.cost == Some(Cost.Text(t)) && AllOf(IsSpace, t)
    ensures Posts(InvokeRun(env, w, a, uuid).world.log) == Posts(w.log) ==>
      InvokeRun(env, w, a, uuid) == Run(Err(InvalidArgument), w)
  {
    TrimEmptyExactly(IsSpace, a.serviceId);
    if a.cost.Some? && a.cost.value.Text? {
      TrimEmptyExactly(IsSpace, a.cost.value.text);
    }
    PostSafety(env, w, InvokeBody(a, uuid), a.options);
  }

  /** A posted call comes to what the last answer says, an error of the post mapped, unless it gives up
      on an open answer, and that not before its poll timeout, counted in milliseconds from the answer
      to the post, is over. */
  lemma PostOutcome(env: Env, w: World, body: Request, o: Options)
    requires body.PostInvoke?
    ensures var r, posted := PostRun(env, w, body, o), Send(env, w, body);
      var h := env.answer(posted.log);
      && posted.log <= r.world.log
      && PollsFor(r.world.log, |posted.log|, h.receipt.invocationId, Delay(o) as real)
      && (HttpError(h).Some? ==> r == Run(Err(InvokeError(HttpError(h).value)), posted))
      && (HttpError(h).None? && r.outcome != Err(TimedOut) ==> r.outcome == AnswerOutcome(env.answer(r.world.log)))
      && (r.outcome == Err(TimedOut) ==>
            AnswerOutcome(h) == Ok(h.receipt) && !IsTerminal(h.receipt)
            && r.world.now >= posted.now + Timeout(o) as real)
  {
    var posted := Send(env, w, body);
    var h := env.answer(posted.log);
    if HttpError(h).None? && !IsTerminal(h.receipt) && o.pollTimeoutMs != Some(0) {
      WaitOutcome(env, posted, h.receipt.invocationId, posted.now + Timeout(o) as real, Delay(o));
      WaitSafety(env, posted, h.receipt.invocationId, posted.now + Timeout(o) as real, Delay(o));
    }
  }

  /** An error of the post keeps its kind if it has one. */
  lemma PostErrorsExactly(h: Http)
    requires HttpError(h).Some?
    ensures var e := InvokeError(HttpError(h).value);
      && (e == Authentication <==> h.status == 401)
      && (e == InsufficientFunds <==> h.status == 402)
      && (forall x, y :: e == PriceMismatch(x, y) <==> h.status == 422 && h.detail == Coded("PRICE_MISMATCH", x, y))
      && (e in {Authentication, InsufficientFunds, InvokeFailed} || e.PriceMismatch?)
  {
    ErrorsExactly(h);
  }

  /** Without options a call polls every second and a half for ninety seconds. */
  lemma DefaultPolling(env: Env, w: World, body: Request, key: Option<string>)
    requires body.PostInvoke?
    ensures var r, posted := PostRun(env, w, body, Options(key, None, None)), Send(env, w, body);
      && PollsFor(r.world.log, |posted.log|, env.answer(posted.log).receipt.invocationId, 1_500.0)
      && (r.outcome == Err(TimedOut) ==> r.world.now >= posted.now + 90_000.0)
      && Lookups(w, r.world) <= 60
  {
    PostOutcome(env, w, body, Options(key, None, None));
    PostSafety(env, w, body, Options(key, None, None));
  }

  /** Both kinds of invoke, whatever the gateway answers: a receipt that is not terminal comes back
      only from a call whose poll timeout is zero, and without a lookup. */
  lemma ResolvesTerminal(env: Env, w: World, a: InvokeArgs, streaming: bool, maxCost: Option<string>, uuid: string)
    ensures var r := InvokeRun(env, w, a, uuid);
      r.outcome.Ok? && !IsTerminal(r.outcome.value) ==> a.options.pollTimeoutMs == Some(0) && Lookups(w, r.world) == 0
    ensures var r := InvokeLlmRun(env, w, a.serviceId, streaming, maxCost, a.options, uuid);
      r.outcome.Ok? && !IsTerminal(r.outcome.value) ==> a.options.pollTimeoutMs == Some(0) && Lookups(w, r.world) == 0
  {
    var metered := PostInvoke(a.serviceId, GetOr(a.options.key, uuid), None, maxCost);
    PostSafety(env, w, InvokeBody(a, uuid), a.options);
    PostSafety(env, w, metered, a.options);
    SendCounts(env, w, InvokeBody(a, uuid));
    SendCounts(env, w, metered);
  }

  /** The answer to the post was open and is polled. */
  predicate Polls(env: Env, w: World, body: Request, o: Options) {
    var h := env.answer(Send(env, w, body).log);
    HttpError(h).None? && !IsTerminal(h.receipt) && o.pollTimeoutMs != Some(0)
  }

  /** Only an error of the post itself is mapped. A call fails as a failed invoke exactly when the post
      was answered with an error of no kind of its own; the same error, answered to a lookup, comes
      through as it is, as does a timeout: each tells that the post was accepted and polled. */
  lemma PollErrorsPassThrough(env: Env, w: World, body: Request, o: Options)
    requires body.PostInvoke?
    ensures PostRun(env, w, body, o).outcome == Err(InvokeFailed)
       <==> HttpError(env.answer(PostedLog(w, body))) == Some(Unmapped)
    ensures PostRun(env, w, body, o).outcome in {Err(Unmapped), Err(TimedOut)} ==> Polls(env, w, body, o)
    ensures PostRun(env, w, body, o).outcome == Err(Unmapped) ==>
      IsLastError(env, PostRun(env, w, body, o).world.log, Unmapped)
  {
    var w' := Send(env, w, body);
    assert w'.log == PostedLog(w, body);
    if Polls(env, w, body, o) {
      WaitSafety(env, w', env.answer(w'.log).receipt.invocationId, w'.now + Timeout(o) as real, Delay(o));
    }
  }

  // ----- rediscovery -----

  function AfterSearch(env: Env, w: World, a: InvokeArgs, query: Option<string>, uuid: string): World {
    Send(env, InvokeRun(env, w, a, uuid).world, SearchRequest(query, a.serviceId))
  }

  /** The price a second attempt would assert. */
  function RetryPrice(env: Env, w: World, a: InvokeArgs, query: Option<string>, uuid: string): real
    requires Mismatched(InvokeRun(env, w, a, uuid))
  {
    var h := env.answer(AfterSearch(env, w, a, query, uuid).log);
    LivePrice(h.services, a.serviceId, InvokeRun(env, w, a, uuid).outcome.error.current)
  }

  /** The run goes on to a second attempt. */
  predicate Retries(env: Env, w: World, a: InvokeArgs, query: Option<string>, retries: Option<int>, uuid: string) {
    && Mismatched(InvokeRun(env, w, a, uuid)) && GetOr(retries, 1) > 0
    && HttpError(env.answer(AfterSearch(env, w, a, query, uuid).log)).None?
    && RetryPrice(env, w, a, query, uuid) > 0.0
  }

  /** The body of the second attempt: the first one's with the rediscovered price, and with its key if
      the caller gave one. */
  function RetryBody(env: Env, w: World, a: InvokeArgs, query: Option<string>, uuid1: string, uuid2: string)
    : (r: Request)
    requires Mismatched(InvokeRun(env, w, a, uuid1))
    ensures r.PostInvoke? && r.serviceId == a.serviceId && r.maxCost == None
    ensures r.cost == Some(Number(RetryPrice(env, w, a, query, uuid1)))
    ensures r.key == (if a.options.key.Some? then a.options.key.value else uuid2)
  {
    InvokeBody(RetryArgs(a, RetryPrice(env, w, a, query, uuid1)), uuid2)
  }

  /** The history in which the second attempt was just posted. */
  function SecondPost(env: Env, w: World, a: InvokeArgs, query: Option<string>, uuid1: string,
                      uuid2: string): seq<Event>
    requires Mismatched(InvokeRun(env, w, a, uuid1))
  {
    PostedLog(AfterSearch(env, w, a, query, uuid1), RetryBody(env, w, a, query, uuid1, uuid2))
  }

  /** A receipt returned is the gateway's last word, and terminal unless open ones are wanted. */
  ghost predicate EndsAsWanted(env: Env, o: Options, r: Run) {
    r.outcome.Ok? ==>
      && IsLastAnswer(env, r.world.log, r.outcome.value)
      && (IsTerminal(r.outcome.value) || o.pollTimeoutMs == Some(0))
  }

  lemma InvokeSafety(env: Env, w: World, a: InvokeArgs, uuid: string)
    ensures var r := InvokeRun(env, w, a, uuid);
      && EndsAsWanted(env, a.options, r)
      && Adds(w, r.world, if ValidArgs(a) then [InvokeBody(a, uuid)] else [])
      && Count(IsSearch, r.world.log) == Count(IsSearch, w.log)
      && Lookups(w, r.world) <= MaxLookups(a.options)
  {
    MaxLookupsPositive(a.options);
    PostSafety(env, w, InvokeBody(a, uuid), a.options);
  }

  /** From a mismatch on: the search, and the second attempt if the price is positive. */
  lemma SearchAndRetry(env: Env, first: Run, a: InvokeArgs, query: Option<string>, uuid: string)
    requires ValidArgs(a) && Mismatched(first)
    ensures var w' := Send(env, first.world, SearchRequest(query, a.serviceId));
      var price := LivePrice(env.answer(w'.log).services, a.serviceId, first.outcome.error.current);
      var r := InvokeRun(env, w', RetryArgs(a, price), uuid);
      && Adds(first.world, w', [])
      && Adds(first.world, r.world, [InvokeBody(RetryArgs(a, price), uuid)])
      && EndsAsWanted(env, a.options, r)
  {
    var w' := Send(env, first.world, SearchRequest(query, a.serviceId));
    SendCounts(env, first.world, SearchRequest(query, a.serviceId));
    var price := LivePrice(env.answer(w'.log).services, a.serviceId, first.outcome.error.current);
    var r := InvokeRun(env, w', RetryArgs(a, price), uuid);
    InvokeSafety(env, w', RetryArgs(a, price), uuid);
    AddsThen(first.world, w', r.world, [], [InvokeBody(RetryArgs(a, price), uuid)]);
  }

  lemma AfterMismatch(env: Env, w: World, a: InvokeArgs, query: Option<string>, retries: Option<int>,
                      uuid1: string, uuid2: string)
    requires ValidArgs(a) && Mismatched(InvokeRun(env, w, a, uuid1)) && GetOr(retries, 1) > 0
    ensures var r := RediscoveryRun(env, w, a, query, retries, uuid1, uuid2);
      && EndsAsWanted(env, a.options, r)
      && Count(IsSearch, r.world.log) <= Count(IsSearch, w.log) + 1
      && Adds(InvokeRun(env, w, a, uuid1).world, r.world,
              if Retries(env, w, a, query, retries, uuid1)
              then [RetryBody(env, w, a, query, uuid1, uuid2)] else [])
  {
    InvokeSafety(env, w, a, uuid1);
    SearchAndRetry(env, InvokeRun(env, w, a, uuid1), a, query, uuid2);
  }

  /** The same bound as for the Python client, although an error of the polling passes through
      unmapped: at most two invokes and one search; the second invoke is posted exactly when the
      first attempt ended in a price mismatch and the rediscovered price is positive, and asserts
      that price unrounded. A receipt returned is terminal unless the poll timeout is zero. */
  lemma RediscoverySafety(env: Env, w: World, a: InvokeArgs, query: Option<string>, retries: Option<int>,
                          uuid1: string, uuid2: string)
    ensures var r := RediscoveryRun(env, w, a, query, retries, uuid1, uuid2);
      && EndsAsWanted(env, a.options, r)
      && Adds(w, r.world,
              if Retries(env, w, a, query, retries, uuid1)
              then [InvokeBody(a, uuid1), InvokeBody(RetryArgs(a, RetryPrice(env, w, a, query, uuid1)), uuid2)]
              else if ValidArgs(a) then [InvokeBody(a, uuid1)] else [])
  {
    var first := InvokeRun(env, w, a, uuid1);
    InvokeSafety(env, w, a, uuid1);
    if Mismatched(first) && GetOr(retries, 1) > 0 {
      AfterMismatch(env, w, a, query, retries, uuid1, uuid2);
      AddsThen(w, first.world, RediscoveryRun(env, w, a, query, retries, uuid1, uuid2).world, [InvokeBody(a, uuid1)],
               if Retries(env, w, a, query, retries, uuid1) then [RetryBody(env, w, a, query, uuid1, uuid2)] else []);
    }
  }

  /** The lookups of a whole run: those of at most two invokes. */
  lemma RediscoveryBound(env: Env, w: World, a: InvokeArgs, query: Option<string>, retries: Option<int>,
                         uuid1: string, uuid2: string)
    ensures Lookups(w, RediscoveryRun(env, w, a, query, retries, uuid1, uuid2).world) <= 2 * MaxLookups(a.options)
  {
    var first := InvokeRun(env, w, a, uuid1);
    MaxLookupsPositive(a.options);
    InvokeSafety(env, w, a, uuid1);
    if Mismatched(first) && GetOr(retries, 1) > 0 {
      var b := RetryArgs(a, RetryPrice(env, w, a, query, uuid1));
      SendCounts(env, first.world, SearchRequest(query, a.serviceId));
      InvokeSafety(env, AfterSearch(env, w, a, query, uuid1), b, uuid2);
    }
  }

  /** The price of the second attempt: that of the first matching service the search found, and where
      there is none, or it states no price, the one quoted with the mismatch. */
  lemma RetryPriceIsLive(env: Env, w: World, a: InvokeArgs, query: Option<string>, uuid: string, k: nat)
    requires Mismatched(InvokeRun(env, w, a, uuid))
    ensures var quoted := env.answer(InvokeRun(env, w, a, uuid).world.log).detail;
      var found := env.answer(AfterSearch(env, w, a, query, uuid).log).services;
      && quoted.Coded?
      && ((forall s :: s in found ==> s.serviceId != a.serviceId) ==>
            RetryPrice(env, w, a, query, uuid) == quoted.currentPrice)
      && (FirstMatch(found, a.serviceId, k) ==>
            RetryPrice(env, w, a, query, uuid) == GetOr(found[k].price, quoted.currentPrice))
  {
    var first := InvokeRun(env, w, a, uuid);
    var found := env.answer(AfterSearch(env, w, a, query, uuid).log).services;
    PostOutcome(env, w, InvokeBody(a, uuid), a.options);
    if FirstMatch(found, a.serviceId, k) {
      LivePriceIsFirstMatch(found, a.serviceId, first.outcome.error.current, k);
    }
    if forall s :: s in found ==> s.serviceId != a.serviceId {
      LivePriceWithoutMatch(found, a.serviceId, first.outcome.error.current);
    }
  }

  /** How a run ends. Without a mismatch or a retry the first attempt is all; otherwise one search for
      the trimmed query, or else the service id, is sent. Any failure of it is a failed discovery; the
      run ends in the mismatch if no positive price is found, and else as the second attempt does. */
  lemma RediscoveryOutcome(env: Env, w: World, a: InvokeArgs, query: Option<string>, retries: Option<int>,
                           uuid1: string, uuid2: string)
    ensures var r := RediscoveryRun(env, w, a, query, retries, uuid1, uuid2);
      var first := InvokeRun(env, w, a, uuid1);
      if !Mismatched(first) || (retries.Some? && retries.value <= 0) then r == first
      else
        var searched := AfterSearch(env, w, a, query, uuid1);
        var e := HttpError(env.answer(searched.log));
        && searched.log[..|first.world.log|] == first.world.log && |searched.log| == |first.world.log| + 1
        && searched.log[|first.world.log|]
           == Sent(first.world.now,
                   Search(Trim(IsSpace, if query.Some? then query.value else a.serviceId), 1, 10))
        && (e.Some? ==> r == Run(Err(Discovery), searched))
        && (e.None? && RetryPrice(env, w, a, query, uuid1) <= 0.0 ==> r == Run(first.outcome, searched))
        && (Retries(env, w, a, query, retries, uuid1) ==>
              r == PostRun(env, searched, RetryBody(env, w, a, query, uuid1, uuid2), a.options))
  {
  }

  // ----- charges -----

  /** A mismatch that ends an invoke was answered either to its post or to a lookup, not to both:
      it comes from a lookup exactly when the post itself was not answered with one. */
  lemma MismatchSource(env: Env, w: World, a: InvokeArgs, uuid: string)
    requires ValidArgs(a) && Mismatched(InvokeRun(env, w, a, uuid))
    ensures EndsInLookupMismatch(env, InvokeRun(env, w, a, uuid).world.log)
       <==> !IsMismatchAnswer(env.answer(PostedLog(w, InvokeBody(a, uuid))))
  {
    var w', o := Send(env, w, InvokeBody(a, uuid)), a.options;
    var h := env.answer(w'.log);
    assert w'.log == PostedLog(w, InvokeBody(a, uuid));
    assert !IsLookup(w'.log[|w'.log| - 1]);
    if HttpError(h).None? && !IsTerminal(h.receipt) && o.pollTimeoutMs != Some(0) {
      WaitSafety(env, w', h.receipt.invocationId, w'.now + Timeout(o) as real, Delay(o));
    }
  }

  lemma InvokeIsAttempt(env: Env, w: World, a: InvokeArgs, uuid: string)
    requires ValidArgs(a)
    ensures Attempt(env, w, InvokeBody(a, uuid), InvokeRun(env, w, a, uuid))
  {
    PostSafety(env, w, InvokeBody(a, uuid), a.options);
    if Mismatched(InvokeRun(env, w, a, uuid)) {
      MismatchSource(env, w, a, uuid);
    }
  }

  /** An invoke of either kind, priced by a number, by a text or metered, is charged at most once,
      for its post, with the price it asserted if it asserted one: polling is never charged. */
  lemma PostCharges(env: Env, billing: Billing, w: World, body: Request, o: Options)
    requires HonestBilling(env, billing) && body.PostInvoke?
    ensures Charges(billing, PostRun(env, w, body, o).world.log)
         == Charges(billing, w.log) + ChargeFor(billing, PostedLog(w, body))
    ensures var charge := billing(PostedLog(w, body)); charge.Some? ==> PricedAs(body.cost, charge.value)
  {
    PostSafety(env, w, body, o);
    PostsSnoc(w.log, Sent(w.now, body));
    OnePostCharged(env, billing, w, body, PostRun(env, w, body, o).world.log);
  }

  /** The second attempt of a run, if it makes one. */
  function SecondOf(env: Env, w: World, a: InvokeArgs, query: Option<string>, retries: Option<int>,
                    uuid1: string, uuid2: string): Second {
    if Retries(env, w, a, query, retries, uuid1)
    then Second(AfterSearch(env, w, a, query, uuid1), RetryBody(env, w, a, query, uuid1, uuid2))
    else NoSecond
  }

  lemma SearchPostsNothing(env: Env, w: World, a: InvokeArgs, query: Option<string>, uuid: string)
    ensures var first, searched := InvokeRun(env, w, a, uuid).world, AfterSearch(env, w, a, query, uuid);
      first.log <= searched.log && Posts(searched.log) == Posts(first.log)
  {
    SendCounts(env, InvokeRun(env, w, a, uuid).world, SearchRequest(query, a.serviceId));
  }

  lemma SecondIsAttempt(env: Env, w: World, a: InvokeArgs, query: Option<string>, retries: Option<int>,
                        uuid1: string, uuid2: string)
    requires ValidArgs(a) && Retries(env, w, a, query, retries, uuid1)
    ensures Attempt(env, AfterSearch(env, w, a, query, uuid1), RetryBody(env, w, a, query, uuid1, uuid2),
                    RediscoveryRun(env, w, a, query, retries, uuid1, uuid2))
  {
    var b := RetryArgs(a, RetryPrice(env, w, a, query, uuid1));
    InvokeIsAttempt(env, AfterSearch(env, w, a, query, uuid1), b, uuid2);
  }

  lemma RunIsAttempts(env: Env, w: World, a: InvokeArgs, query: Option<string>, retries: Option<int>,
                      uuid1: string, uuid2: string)
    requires ValidArgs(a)
    ensures Attempts(env, w, InvokeBody(a, uuid1), InvokeRun(env, w, a, uuid1),
                     SecondOf(env, w, a, query, retries, uuid1, uuid2),
                     RediscoveryRun(env, w, a, query, retries, uuid1, uuid2))
  {
    InvokeIsAttempt(env, w, a, uuid1);
    SearchPostsNothing(env, w, a, query, uuid1);
    if Retries(env, w, a, query, retries, uuid1) {
      SecondIsAttempt(env, w, a, query, retries, uuid1, uuid2);
    }
  }

  /** The price that the last attempt of a run asserts. */
  function LastAsserted(env: Env, w: World, a: InvokeArgs, query: Option<string>, retries: Option<int>,
                        uuid1: string): Option<Cost>
  {
    if Retries(env, w, a, query, retries, uuid1) then Some(Number(RetryPrice(env, w, a, query, uuid1)))
    else a.cost
  }

  /** With honest billing, and lookups that never answer with a mismatch, a whole run is charged at
      most once, and then with the price its last attempt asserted; if it retries, the
      first attempt was not charged. */
  lemma ChargedAtMostOnce(env: Env, billing: Billing, w: World, a: InvokeArgs, query: Option<string>,
                          retries: Option<int>, uuid1: string, uuid2: string)
    requires HonestBilling(env, billing) && LookupsNeverMismatch(env)
    ensures OneMoreAtMost(Charges(billing, w.log),
                          Charges(billing, RediscoveryRun(env, w, a, query, retries, uuid1, uuid2).world.log),
                          LastAsserted(env, w, a, query, retries, uuid1))
    ensures Retries(env, w, a, query, retries, uuid1) ==>
      Charges(billing, InvokeRun(env, w, a, uuid1).world.log) == Charges(billing, w.log)
  {
    if ValidArgs(a) {
      RunIsAttempts(env, w, a, query, retries, uuid1, uuid2);
      LastAttemptCharged(env, billing, w, InvokeBody(a, uuid1), InvokeRun(env, w, a, uuid1),
                         SecondOf(env, w, a, query, retries, uuid1, uuid2),
                         RediscoveryRun(env, w, a, query, retries, uuid1, uuid2));
    }
  }

  /** With one idempotency key for both attempts, as when the caller gives it, and a gateway that
      charges no key twice, a run is charged at most once whatever lookups answer, and with the price
      that one of its attempts asserted. */
  lemma ChargedOnceByKey(env: Env, billing: Billing, w: World, a: InvokeArgs, query: Option<string>,
                         retries: Option<int>, uuid1: string, uuid2: string)
    requires HonestBilling(env, billing) && ChargesKeyOnce(billing)
    requires InvokeBody(a, uuid1).key == InvokeBody(a, uuid2).key
    ensures var before := Charges(billing, w.log);
      var after := Charges(billing, RediscoveryRun(env, w, a, query, retries, uuid1, uuid2).world.log);
      || OneMoreAtMost(before, after, a.cost)
      || OneMoreAtMost(before, after, LastAsserted(env, w, a, query, retries, uuid1))
  {
    if ValidArgs(a) {
      RunIsAttempts(env, w, a, query, retries, uuid1, uuid2);
      SameKeyChargedOnce(env, billing, w, InvokeBody(a, uuid1), InvokeRun(env, w, a, uuid1),
                         SecondOf(env, w, a, query, retries, uuid1, uuid2),
                         RediscoveryRun(env, w, a, query, retries, uuid1, uuid2));
    }
  }

  // ----- two charges -----

  /** What the gateway must answer for a run to be charged twice: a mismatch to a lookup of the
      first attempt, a search with a positive price, and no mismatch to the second post. */
  predicate InvitesSecondCharge(env: Env, w: World, a: InvokeArgs, query: Option<string>, retries: Option<int>,
                                uuid1: string, uuid2: string)
  {
    && Retries(env, w, a, query, retries, uuid1)
    && EndsInLookupMismatch(env, InvokeRun(env, w, a, uuid1).world.log)
    && !IsMismatchAnswer(env.answer(SecondPost(env, w, a, query, uuid1, uuid2)))
  }

  lemma LookupMismatchTakesPolling(env: Env, w: World, a: InvokeArgs, uuid: string)
    requires ValidArgs(a) && EndsInLookupMismatch(env, InvokeRun(env, w, a, uuid).world.log)
    ensures Timeout(a.options) > 0
  {
    var w', o := Send(env, w, InvokeBody(a, uuid)), a.options;
    var h := env.answer(w'.log);
    assert !IsLookup(w'.log[|w'.log| - 1]);
    if HttpError(h).None? && !IsTerminal(h.receipt) && o.pollTimeoutMs != Some(0) {
      WaitBound(env, w', h.receipt.invocationId, o);
    }
  }

  /** Without the assumption on lookups, some honest billing charges the run twice if and only if
      the gateway answers a lookup of the first attempt with a mismatch, the search with a positive
      price and the second post with anything but a mismatch; a call without a positive poll
      timeout is safe. */
  lemma ChargedTwiceExactly(env: Env, w: World, a: InvokeArgs, query: Option<string>, retries: Option<int>,
                            uuid1: string, uuid2: string)
    ensures (exists billing: Billing ::
               ChargesTwice(env, billing, w, RediscoveryRun(env, w, a, query, retries, uuid1, uuid2)))
       <==> InvitesSecondCharge(env, w, a, query, retries, uuid1, uuid2)
    ensures InvitesSecondCharge(env, w, a, query, retries, uuid1, uuid2) ==> Timeout(a.options) > 0
  {
    if ValidArgs(a) {
      RunIsAttempts(env, w, a, query, retries, uuid1, uuid2);
      TwiceExactly(env, w, InvokeBody(a, uuid1), InvokeRun(env, w, a, uuid1),
                   SecondOf(env, w, a, query, retries, uuid1, uuid2),
                   RediscoveryRun(env, w, a, query, retries, uuid1, uuid2));
      if InvitesSecondCharge(env, w, a, query, retries, uuid1, uuid2) {
        LookupMismatchTakesPolling(env, w, a, uuid1);
      }
    }
  }

  lemma LateInvoke(w: World, a: InvokeArgs, uuid: string)
    requires ValidArgs(a) && Timeout(a.options) > 0
    ensures InvokeRun(LateMismatch(), w, a, uuid).outcome == Err(PriceMismatch(1.0, 1.0))
  {
    var w' := Send(LateMismatch(), w, InvokeBody(a, uuid));
    LateAnswers(w, InvokeBody(a, uuid));
    LateAnswers(w', GetReceipt("inv"));
  }

  lemma LateMismatchInvites(w: World, a: InvokeArgs, query: Option<string>, retries: Option<int>, uuid1: string,
                            uuid2: string)
    requires ValidArgs(a) && GetOr(retries, 1) > 0 && Timeout(a.options) > 0
    ensures InvitesSecondCharge(LateMismatch(), w, a, query, retries, uuid1, uuid2)
  {
    var env := LateMismatch();
    LateInvoke(w, a, uuid1);
    LateAnswers(InvokeRun(env, w, a, uuid1).world, SearchRequest(query, a.serviceId));
    LateAnswers(w, InvokeBody(a, uuid1));
    LateAnswers(AfterSearch(env, w, a, query, uuid1), RetryBody(env, w, a, query, uuid1, uuid2));
    MismatchSource(env, w, a, uuid1);
  }

  /** The assumption is needed: against this gateway, which accepts every post and then answers the
      lookup with a mismatch, every call that polls and may retry is charged twice. */
  lemma LateMismatchChargesTwice(w: World, a: InvokeArgs, query: Option<string>, retries: Option<int>,
                                 uuid1: string, uuid2: string)
    requires ValidArgs(a) && GetOr(retries, 1) > 0 && Timeout(a.options) > 0
    ensures ChargesTwice(LateMismatch(), GreedyBilling(LateMismatch()), w,
                         RediscoveryRun(LateMismatch(), w, a, query, retries, uuid1, uuid2))
  {
    var env := LateMismatch();
    LateMismatchInvites(w, a, query, retries, uuid1, uuid2);
    RunIsAttempts(env, w, a, query, retries, uuid1, uuid2);
    InvitedIsTwice(env, w, InvokeBody(a, uuid1), InvokeRun(env, w, a, uuid1),
                   SecondOf(env, w, a, query, retries, uuid1, uuid2),
                   RediscoveryRun(env, w, a, query, retries, uuid1, uuid2));
  }

  /** What a caller can see before the call: no honest gateway can charge it twice if and only if its
      arguments are refused, it does not retry or it does not poll. */
  lemma SafeCallsExactly(w: World, a: InvokeArgs, query: Option<string>, retries: Option<int>, uuid1: string,
                         uuid2: string)
    ensures (forall env: Env, billing: Billing ::
               !ChargesTwice(env, billing, w, RediscoveryRun(env, w, a, query, retries, uuid1, uuid2)))
       <==> !ValidArgs(a) || GetOr(retries, 1) <= 0 || Timeout(a.options) <= 0
  {
    if ValidArgs(a) && GetOr(retries, 1) > 0 && Timeout(a.options) > 0 {
      LateMismatchChargesTwice(w, a, query, retries, uuid1, uuid2);
    } else {
      forall env: Env, billing: Billing
        ensures !ChargesTwice(env, billing, w, RediscoveryRun(env, w, a, query, retries, uuid1, uuid2))
      {
        ChargedTwiceExactly(env, w, a, query, retries, uuid1, uuid2);
      }
    }
  }

  /** If the gateway charges no idempotency key twice, the other calls become safe exactly when both
      attempts carry one key; a key of the caller's does that. */
  lemma SafeCallsByKeyExactly(w: World, a: InvokeArgs, query: Option<string>, retries: Option<int>,
                              uuid1: string, uuid2: string)
    ensures (forall env: Env, billing: Billing ::
               ChargesKeyOnce(billing) ==>
                 !ChargesTwice(env, billing, w, RediscoveryRun(env, w, a, query, retries, uuid1, uuid2)))
       <==> || !ValidArgs(a) || GetOr(retries, 1) <= 0 || Timeout(a.options) <= 0
            || InvokeBody(a, uuid1).key == InvokeBody(a, uuid2).key
    ensures a.options.key.Some? ==> InvokeBody(a, uuid1).key == InvokeBody(a, uuid2).key
  {
    if !ValidArgs(a) || GetOr(retries, 1) <= 0 || Timeout(a.options) <= 0 {
      SafeCallsExactly(w, a, query, retries, uuid1, uuid2);
    } else if InvokeBody(a, uuid1).key == InvokeBody(a, uuid2).key {
      forall env: Env, billing: Billing | ChargesKeyOnce(billing)
        ensures !ChargesTwice(env, billing, w, RediscoveryRun(env, w, a, query, retries, uuid1, uuid2))
      {
        if HonestBilling(env, billing) {
          ChargedOnceByKey(env, billing, w, a, query, retries, uuid1, uuid2);
        }
      }
    } else {
      var env, billing := LateMismatch(), KeyedBilling(LateMismatch(), |w.log|);
      LateMismatchInvites(w, a, query, retries, uuid1, uuid2);
      RunIsAttempts(env, w, a, query, retries, uuid1, uuid2);
      OtherKeyIsTwice(env, w, InvokeBody(a, uuid1), InvokeRun(env, w, a, uuid1),
                      SecondOf(env, w, a, query, retries, uuid1, uuid2),
                      RediscoveryRun(env, w, a, query, retries, uuid1, uuid2));
      KeyedBillingChargesKeyOnce(env, |w.log|);
      var run := RediscoveryRun(env, w, a, query, retries, uuid1, uuid2);
      assert ChargesKeyOnce(billing) && ChargesTwice(env, billing, w, run);
    }
  }
}
