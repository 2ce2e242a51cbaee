/** What holds of every run of the Python client, whatever the gateway answers.
 */
module PythonProtocol {
  import opened Positional
  import opened Text
  import opened Money
  import opened Gateway
  import opened ChargingRule
  import opened PythonClient

  // ----- polling -----

  lemma LookupCounts(env: Env, w: World, id: string)
    ensures var w' := LookupRun(env, w, id).world;
      OnlyPolls(w, w') && Sleeps(w, w') == 0 && Lookups(w, w') == if Strip(id) == "" then 0 else 1
  {
    if Strip(id) != "" {
      SendCounts(env, w, GetReceipt(Strip(id)));
    }
  }

  /** What polling from `w` comes to. It returns only terminal receipts, as the gateway last
      reported them. It sends nothing but lookups, always at least one, and one more than it
      sleeps; no sleep would end later than the limit, and it gives up only when the next one
      would. */
  ghost predicate PollFacts(env: Env, w: World, id: string, limit: real, interval: int, r: Run) {
    && OnlyPolls(w, r.world)
    && SleepsWithin(r.world.log, |w.log|, limit)
    && EndsWell(env, r)
    && (r.outcome == Err(TimedOut) ==> r.world.now + interval as real > limit)
    && (Strip(id) == "" ==> r == Run(Err(InvalidArgument), w))
    && (Strip(id) != "" ==> Lookups(w, r.world) == Sleeps(w, r.world) + 1 >= 1)
    && (Sleeps(w, r.world) > 0 ==> w.now + Times(Sleeps(w, r.world), interval) <= limit)
  }

  lemma SleepsJoin(log: seq<Event>, w: World, slept: World, limit: real)
    requires w.log <= slept.log <= log
    requires SleepsWithin(slept.log, |w.log|, limit)
    requires SleepsWithin(log, |slept.log|, limit)
    ensures SleepsWithin(log, |w.log|, limit)
  {
    assert forall i :: 0 <= i < |slept.log| ==> log[i] == slept.log[i];
  }

  lemma LastRound(env: Env, w: World, id: string, limit: real, interval: int)
    requires interval >= 1
    requires var first := LookupRun(env, w, id);
      first.outcome.Err? || IsTerminal(first.outcome.value) || first.world.now + interval as real > limit
    ensures PollFacts(env, w, id, limit, interval, WaitRun(env, w, id, limit, interval))
  {
    LookupCounts(env, w, id);
  }

  lemma OneMoreRound(env: Env, w: World, id: string, limit: real, interval: int, r: Run)
    requires interval >= 1 && Strip(id) != ""
    requires var sent := LookupRun(env, w, id).world;
      && sent.now + interval as real <= limit
      && PollFacts(env, Sleep(sent, interval as real), id, limit, interval, r)
    ensures PollFacts(env, w, id, limit, interval, r)
  {
    var sent := LookupRun(env, w, id).world;
    var slept := Sleep(sent, interval as real);
    LookupCounts(env, w, id);
    SleepCounts(sent, interval as real);
    SleepsJoin(r.world.log, w, slept, limit);
    var n := Sleeps(slept, r.world);
    assert Sleeps(w, r.world) == n + 1;
    TimesNext(n, interval);
    assert n == 0 ==> Times(n, interval) == 0.0;
  }

  lemma {:induction false} WaitSafety(env: Env, w: World, id: string, limit: real, interval: int)
    requires interval >= 1
    ensures PollFacts(env, w, id, limit, interval, WaitRun(env, w, id, limit, interval))
    decreases Remaining(limit, w.now)
  {
    var first := LookupRun(env, w, id);
    if first.outcome.Ok? && !IsTerminal(first.outcome.value) && first.world.now + interval as real <= limit {
      var slept := Sleep(first.world, interval as real);
      WaitSafety(env, slept, id, limit, interval);
      OneMoreRound(env, w, id, limit, interval, WaitRun(env, slept, id, limit, interval));
    } else {
      LastRound(env, w, id, limit, interval);
    }
  }

  lemma RoundsFit(now: real, n: int, k: int, maxWait: int)
    requires n >= 0 && k >= 1 && now + Times(n, k) <= now + maxWait as real
    ensures 0 <= maxWait && n <= maxWait / k
    ensures n > 0 ==> maxWait > 0
  {
    assert n * k >= n by {
      MulMonotone(1, k, n);
    }
    FitsInto(n, k, maxWait);
  }

  /** The number of lookups one wait can make: one, and one more for every interval that fits into
      the allowed time. */
  lemma WaitBound(env: Env, w: World, id: string, maxWait: int, poll: int)
    ensures var r := WaitRun(env, w, id, w.now + maxWait as real, Interval(poll));
      && (maxWait >= 0 ==> Lookups(w, r.world) <= 1 + maxWait / Interval(poll))
      && (maxWait < 0 ==> Lookups(w, r.world) <= 1)
  {
    var k := Interval(poll);
    var r := WaitRun(env, w, id, w.now + maxWait as real, k);
    WaitSafety(env, w, id, w.now + maxWait as real, k);
    var n := Sleeps(w, r.world);
    if Strip(id) != "" && n > 0 {
      RoundsFit(w.now, n, k, maxWait);
    } else if maxWait >= 0 {
      RoundsFit(0.0, 0, k, maxWait);
    }
  }

  /** What an answer for good means, and what an open one does when time is up. */
  function OutcomeOf(h: Http): Outcome {
    match ErrorOf(h, false)
    case Some(e) => Err(e)
    case None => if IsTerminal(h.receipt) then Ok(h.receipt) else Err(TimedOut)
  }

  /** Polling asks for the one id, again and again, pauses for the interval in between, and comes to
      what the last answer says. */
  lemma {:induction false} WaitOutcome(env: Env, w: World, id: string, limit: real, interval: int)
    requires interval >= 1 && Strip(id) != ""
    ensures var r := WaitRun(env, w, id, limit, interval);
      && w.log <= r.world.log
      && PollsFor(r.world.log, |w.log|, Strip(id), interval as real)
      && r.outcome == OutcomeOf(env.answer(r.world.log))
    decreases Remaining(limit, w.now)
  {
    var first := LookupRun(env, w, id);
    if first.outcome.Ok? && !IsTerminal(first.outcome.value) && first.world.now + interval as real <= limit {
      var slept := Sleep(first.world, interval as real);
      var r := WaitRun(env, slept, id, limit, interval);
      WaitOutcome(env, slept, id, limit, interval);
      assert r.world.log[..|slept.log|] == slept.log;
      PollsForMore(r.world.log, |w.log|, |slept.log|, Strip(id), interval as real);
    }
  }

  // ----- one invoke -----

  /** The kinds of error, each with the answers that mean it. */
  lemma ErrorsExactly(h: Http, discovery: bool)
    ensures var e := ErrorOf(h, discovery);
      && (e.None? <==> h.status < 400 || h.status >= 600)
      && (e == Some(Authentication) <==> h.status == 401)
      && (e in {Some(InsufficientFunds), Some(BudgetExceeded)} <==> h.status == 402)
      && (e == Some(InsufficientFunds) <==>
            h.status == 402 && h.detail.Coded?
            && (h.detail.code == "BUDGET_EXHAUSTED" || h.detail.code == "CREDENTIAL_CREDIT_LIMIT_EXCEEDED"))
      && (forall x, y ::
            e == Some(PriceMismatch(x, y)) <==> h.status == 422 && h.detail == Coded("PRICE_MISMATCH", x, y))
      && (e == Some(Discovery) ==> discovery) && (e == Some(InvokeFailed) ==> !discovery)
      && e !in {Some(TimedOut), Some(InvalidArgument), Some(Unmapped)}
  {
  }

  /** The body of an invoke, member by member. */
  lemma InvokePosts(a: InvokeArgs, uuid: string)
    ensures var b := InvokeBody(a, uuid);
      && b.serviceId == Strip(a.serviceId) && b.maxCost == a.maxCost
      && (a.key.Some? && a.key.value != "" ==> b.key == Strip(a.key.value))
      && (a.key.None? || a.key.value == "" ==> b.key == Strip(uuid))
      && (a.cost.None? ==> b.cost == None)
      && (forall t :: a.cost == Some(Cost.Text(t)) ==> b.cost == a.cost)
      && (forall x :: a.cost == Some(Number(x)) ==>
            exists y :: b.cost == Some(Number(y)) && IsMicro(y) && -0.0000005 <= y - x <= 0.0000005)
  {
    if a.cost.Some? && a.cost.value.Number? {
      Round6IsNearest(a.cost.value.value);
    }
  }

  /** One invoke posts its body once, if its arguments are valid, and then only polls. What it
      returns is terminal and is the gateway's last word. */
  lemma InvokeSafety(env: Env, w: World, a: InvokeArgs, uuid: string)
    ensures var r := InvokeRun(env, w, a, uuid);
      && w.log <= r.world.log
      && Posts(r.world.log) == Posts(w.log) + (if ValidArgs(a) then [InvokeBody(a, uuid)] else [])
      && (ValidArgs(a) ==> PostedLog(w, InvokeBody(a, uuid)) <= r.world.log)
      && Count(IsSearch, r.world.log) == Count(IsSearch, w.log)
      && (r.outcome.Ok? ==> IsTerminal(r.outcome.value) && IsLastAnswer(env, r.world.log, r.outcome.value))
  {
    if ValidArgs(a) {
      var w' := Send(env, w, InvokeBody(a, uuid));
      var h := env.answer(w'.log);
      SendCounts(env, w, InvokeBody(a, uuid));
      if ErrorOf(h, false).None? && !IsTerminal(h.receipt) {
        WaitSafety(env, w', h.receipt.invocationId, w'.now + a.pollTimeout as real, 1);
      }
    }
  }

  /** A call is refused without a request exactly for a blank service id, or for want of a price where
      one is required; a blank price text is sent. */
  lemma RefusedExactly(env: Env, w: World, a: InvokeArgs, uuid: string)
    ensures Posts(InvokeRun(env, w, a, uuid).world.log) == Posts(w.log)
       <==> AllOf(IsPythonSpace, a.serviceId) || (a.cost == None && !a.allowMissingCost)
    ensures Posts(InvokeRun(env, w, a, uuid).world.log) == Posts(w.log) ==>
      InvokeRun(env, w, a, uuid) == Run(Err(InvalidArgument), w)
  {
    TrimEmptyExactly(IsPythonSpace, a.serviceId);
    InvokeSafety(env, w, a, uuid);
  }

  /** A valid call comes to what the last answer says; if that is open, it was the answer to the post
      and has no id to ask for, or the poll timeout, counted in seconds from the answer to the post,
      leaves no second for another lookup. */
  lemma InvokeOutcome(env: Env, w: World, a: InvokeArgs, uuid: string)
    requires ValidArgs(a)
    ensures var r, posted := InvokeRun(env, w, a, uuid), Send(env, w, InvokeBody(a, uuid));
      var h := env.answer(posted.log);
      && posted.log <= r.world.log
      && PollsFor(r.world.log, |posted.log|, Strip(h.receipt.invocationId), 1.0)
      && (r.outcome == Err(InvalidArgument) <==>
            OutcomeOf(h) == Err(TimedOut) && Strip(h.receipt.invocationId) == "")
      && (r.outcome != Err(InvalidArgument) ==> r.outcome == OutcomeOf(env.answer(r.world.log)))
      && (r.outcome == Err(TimedOut) ==> r.world.now + 1.0 > posted.now + a.pollTimeout as real)
  {
    var posted := Send(env, w, InvokeBody(a, uuid));
    var h := env.answer(posted.log);
    if OutcomeOf(h) == Err(TimedOut) && Strip(h.receipt.invocationId) != "" {
      WaitOutcome(env, posted, h.receipt.invocationId, posted.now + a.pollTimeout as real, 1);
      WaitSafety(env, posted, h.receipt.invocationId, posted.now + a.pollTimeout as real, 1);
    }
  }

  /** An invoke polls once a second: it makes at most one lookup more than its timeout has
      seconds, and at most one if the timeout is negative. */
  lemma InvokeBound(env: Env, w: World, a: InvokeArgs, uuid: string)
    ensures Lookups(w, InvokeRun(env, w, a, uuid).world) <= 1 + if a.pollTimeout >= 0 then a.pollTimeout else 0
  {
    if ValidArgs(a) {
      var w' := Send(env, w, InvokeBody(a, uuid));
      var h := env.answer(w'.log);
      SendCounts(env, w, InvokeBody(a, uuid));
      if ErrorOf(h, false).None? && !IsTerminal(h.receipt) {
        WaitBound(env, w', h.receipt.invocationId, a.pollTimeout, 1);
      }
    }
  }

  // ----- rediscovery -----

  /** Where the second attempt starts. */
  function AfterSearch(env: Env, w: World, a: InvokeArgs, query: string, uuid: string): World {
    Send(env, InvokeRun(env, w, a, uuid).world, SearchRequest(query, a.serviceId))
  }

  /** The price a second attempt would assert, before rounding. */
  function RetryPrice(env: Env, w: World, a: InvokeArgs, query: string, uuid: string): real
    requires Mismatched(InvokeRun(env, w, a, uuid))
  {
    var h := env.answer(AfterSearch(env, w, a, query, uuid).log);
    LivePrice(h.services, a.serviceId, InvokeRun(env, w, a, uuid).outcome.error.current)
  }

  /** The run goes on to a second attempt. */
  predicate Retries(env: Env, w: World, a: InvokeArgs, query: string, retries: int, uuid: string) {
    && Mismatched(InvokeRun(env, w, a, uuid)) && retries > 0
    && ErrorOf(env.answer(AfterSearch(env, w, a, query, uuid).log), true).None?
    && RetryPrice(env, w, a, query, uuid) > 0.0
  }

  /** The body of the second attempt: the first one's with the rediscovered price, rounded; the
      idempotency key is the same one when the caller gave it. */
  function RetryBody(env: Env, w: World, a: InvokeArgs, query: string, uuid1: string, uuid2: string): (r: Request)
    requires Mismatched(InvokeRun(env, w, a, uuid1))
    ensures r.PostInvoke? && r.serviceId == Strip(a.serviceId) && r.maxCost == a.maxCost
    ensures r.cost == Some(Number(Round6(RetryPrice(env, w, a, query, uuid1))))
    ensures a.key.Some? && a.key.value != "" ==> r.key == Strip(a.key.value)
  {
    InvokeBody(RetryArgs(a, RetryPrice(env, w, a, query, uuid1)), uuid2)
  }

  /** The history in which the second attempt was just posted. */
  function SecondPost(env: Env, w: World, a: InvokeArgs, query: string, uuid1: string, uuid2: string): seq<Event>
    requires Mismatched(InvokeRun(env, w, a, uuid1))
  {
    PostedLog(AfterSearch(env, w, a, query, uuid1), RetryBody(env, w, a, query, uuid1, uuid2))
  }

  /** A positive live price is not always asserted as one: it is exactly when it exceeds half a
      millionth; below, the second attempt asserts zero. */
  lemma RetryAssertsPositiveExactly(env: Env, w: World, a: InvokeArgs, query: string, retries: int,
                                    uuid1: string, uuid2: string)
    requires Retries(env, w, a, query, retries, uuid1)
    ensures var b := RetryBody(env, w, a, query, uuid1, uuid2);
      && b.cost.Some? && b.cost.value.Number?
      && (b.cost.value.value > 0.0 <==> RetryPrice(env, w, a, query, uuid1) > 0.0000005)
      && (b.cost.value.value == 0.0 <==> RetryPrice(env, w, a, query, uuid1) <= 0.0000005)
  {
    Round6Positive(RetryPrice(env, w, a, query, uuid1));
  }

  /** From a mismatch on: the search, and the second attempt if the price is positive. */
  lemma SearchAndRetry(env: Env, first: Run, a: InvokeArgs, query: string, uuid: string)
    requires ValidArgs(a) && Mismatched(first)
    ensures var w' := Send(env, first.world, SearchRequest(query, a.serviceId));
      var price := LivePrice(env.answer(w'.log).services, a.serviceId, first.outcome.error.current);
      var r := InvokeRun(env, w', RetryArgs(a, price), uuid);
      && Adds(first.world, w', [])
      && Adds(first.world, r.world, [InvokeBody(RetryArgs(a, price), uuid)])
      && EndsWell(env, r)
  {
    var request := SearchRequest(query, a.serviceId);
    var w' := Send(env, first.world, request);
    SendCounts(env, first.world, request);
    var price := LivePrice(env.answer(w'.log).services, a.serviceId, first.outcome.error.current);
    var r := InvokeRun(env, w', RetryArgs(a, price), uuid);
    InvokeSafety(env, w', RetryArgs(a, price), uuid);
    AddsThen(first.world, w', r.world, [], [InvokeBody(RetryArgs(a, price), uuid)]);
  }

  lemma AfterMismatch(env: Env, w: World, a: InvokeArgs, query: string, retries: int,
                      uuid1: string, uuid2: string)
    requires ValidArgs(a) && Mismatched(InvokeRun(env, w, a, uuid1)) && retries > 0
    ensures var r := RediscoveryRun(env, w, a, query, retries, uuid1, uuid2);
      && EndsWell(env, r)
      && Count(IsSearch, r.world.log) <= Count(IsSearch, w.log) + 1
      && Adds(InvokeRun(env, w, a, uuid1).world, r.world,
              if Retries(env, w, a, query, retries, uuid1)
              then [RetryBody(env, w, a, query, uuid1, uuid2)] else [])
  {
    InvokeSafety(env, w, a, uuid1);
    SearchAndRetry(env, InvokeRun(env, w, a, uuid1), a, query, uuid2);
  }

  /** However large `retries` is and whatever the gateway answers, a run posts at most two invokes
      and searches at most once. It posts the second exactly when the first attempt ended in a
      price mismatch and the rediscovered price is positive, and then asserts that price, rounded;
      a returned receipt is terminal. */
  lemma RediscoverySafety(env: Env, w: World, a: InvokeArgs, query: string, retries: int, uuid1: string, uuid2: string)
    ensures var r := RediscoveryRun(env, w, a, query, retries, uuid1, uuid2);
      && EndsWell(env, r)
      && Adds(w, r.world,
              if Retries(env, w, a, query, retries, uuid1)
              then [InvokeBody(a, uuid1), RetryBody(env, w, a, query, uuid1, uuid2)]
              else if ValidArgs(a) then [InvokeBody(a, uuid1)] else [])
  {
    var first := InvokeRun(env, w, a, uuid1);
    InvokeSafety(env, w, a, uuid1);
    if Mismatched(first) && retries > 0 {
      AfterMismatch(env, w, a, query, retries, uuid1, uuid2);
      AddsThen(w, first.world, RediscoveryRun(env, w, a, query, retries, uuid1, uuid2).world, [InvokeBody(a, uuid1)],
               if Retries(env, w, a, query, retries, uuid1) then [RetryBody(env, w, a, query, uuid1, uuid2)] else []);
    }
  }

  /** The lookups of a whole run: those of at most two invokes. */
  lemma RediscoveryBound(env: Env, w: World, a: InvokeArgs, query: string, retries: int, uuid1: string, uuid2: string)
    ensures Lookups(w, RediscoveryRun(env, w, a, query, retries, uuid1, uuid2).world)
         <= 2 * (1 + if a.pollTimeout >= 0 then a.pollTimeout else 0)
  {
    var first := InvokeRun(env, w, a, uuid1);
    InvokeBound(env, w, a, uuid1);
    if Mismatched(first) && retries > 0 {
      SendCounts(env, first.world, SearchRequest(query, a.serviceId));
      InvokeBound(env, AfterSearch(env, w, a, query, uuid1), RetryArgs(a, RetryPrice(env, w, a, query, uuid1)), uuid2);
    }
  }

  /** The price of the second attempt: that of the first matching service the search found, and where
      there is none, or it states no price, the one quoted with the mismatch. */
  lemma RetryPriceIsLive(env: Env, w: World, a: InvokeArgs, query: string, uuid: string, k: nat)
    requires Mismatched(InvokeRun(env, w, a, uuid))
    ensures var quoted := env.answer(InvokeRun(env, w, a, uuid).world.log).detail;
      var found := env.answer(AfterSearch(env, w, a, query, uuid).log).services;
      && quoted.Coded?
      && ((forall s :: s in found ==> s.serviceId != a.serviceId) ==>
            RetryPrice(env, w, a, query, uuid) == quoted.currentPrice)
      && (FirstMatch(found, a.serviceId, k) ==>
            RetryPrice(env, w, a, query, uuid) == GetOr(found[k].price, quoted.currentPrice))
  {
    var first := InvokeRun(env, w, a, uuid);
    var found := env.answer(AfterSearch(env, w, a, query, uuid).log).services;
    InvokeOutcome(env, w, a, uuid);
    ErrorsExactly(env.answer(first.world.log), false);
    if FirstMatch(found, a.serviceId, k) {
      LivePriceIsFirstMatch(found, a.serviceId, first.outcome.error.current, k);
    }
    if forall s :: s in found ==> s.serviceId != a.serviceId {
      LivePriceWithoutMatch(found, a.serviceId, first.outcome.error.current);
    }
  }

  /** How a run ends. Without a mismatch or a retry the first attempt is all; otherwise one search for
      the query, or else the service id, is sent. It fails with the search, as a failed discovery
      unless the error has a kind of its own; it ends in the mismatch if no positive price is found,
      and else as the second attempt does, which has its own poll timeout. */
  lemma RediscoveryOutcome(env: Env, w: World, a: InvokeArgs, query: string, retries: int, uuid1: string, uuid2: string)
    ensures var r := RediscoveryRun(env, w, a, query, retries, uuid1, uuid2);
      var first := InvokeRun(env, w, a, uuid1);
      if !Mismatched(first) || retries <= 0 then r == first
      else
        var searched := AfterSearch(env, w, a, query, uuid1);
        var e := ErrorOf(env.answer(searched.log), true);
        && searched.log <= r.world.log
        && searched.log[..|first.world.log|] == first.world.log && |searched.log| == |first.world.log| + 1
        && searched.log[|first.world.log|]
           == Sent(first.world.now, Search(if query == "" then a.serviceId else query, 1, 10))
        && (e.Some? ==> r == Run(Err(e.value), searched))
        && (e.None? && RetryPrice(env, w, a, query, uuid1) <= 0.0 ==> r == Run(first.outcome, searched))
        && (Retries(env, w, a, query, retries, uuid1) ==>
              var posted := Send(env, searched, RetryBody(env, w, a, query, uuid1, uuid2));
              && (r.outcome != Err(InvalidArgument) ==> r.outcome == OutcomeOf(env.answer(r.world.log)))
              && (r.outcome == Err(TimedOut) ==> r.world.now + 1.0 > posted.now + a.pollTimeout as real))
  {
    if Retries(env, w, a, query, retries, uuid1) {
      var b := RetryArgs(a, RetryPrice(env, w, a, query, uuid1));
      InvokeOutcome(env, AfterSearch(env, w, a, query, uuid1), b, uuid2);
    }
  }

  // ----- charges -----

  lemma {:induction false} WaitMismatchIsLookup(env: Env, w: World, id: string, limit: real, interval: int)
    requires interval >= 1
    ensures var r := WaitRun(env, w, id, limit, interval); Mismatched(r) ==> EndsInLookupMismatch(env, r.world.log)
    decreases Remaining(limit, w.now)
  {
    var first := LookupRun(env, w, id);
    if first.outcome.Ok? && !IsTerminal(first.outcome.value) && first.world.now + interval as real <= limit {
      WaitMismatchIsLookup(env, Sleep(first.world, interval as real), id, limit, interval);
    }
  }

  /** A mismatch that ends an invoke was answered either to its post or to a lookup, not to both:
      it comes from a lookup exactly when the post itself was not answered with one. */
  lemma MismatchSource(env: Env, w: World, a: InvokeArgs, uuid: string)
    requires ValidArgs(a) && Mismatched(InvokeRun(env, w, a, uuid))
    ensures EndsInLookupMismatch(env, InvokeRun(env, w, a, uuid).world.log)
       <==> !IsMismatchAnswer(env.answer(PostedLog(w, InvokeBody(a, uuid))))
  {
    var w' := Send(env, w, InvokeBody(a, uuid));
    var h := env.answer(w'.log);
    assert w'.log == PostedLog(w, InvokeBody(a, uuid));
    assert !IsLookup(w'.log[|w'.log| - 1]);
    if ErrorOf(h, false).None? && !IsTerminal(h.receipt) {
      WaitMismatchIsLookup(env, w', h.receipt.invocationId, w'.now + a.pollTimeout as real, 1);
    }
  }

  lemma InvokeIsAttempt(env: Env, w: World, a: InvokeArgs, uuid: string)
    requires ValidArgs(a)
    ensures Attempt(env, w, InvokeBody(a, uuid), InvokeRun(env, w, a, uuid))
  {
    InvokeSafety(env, w, a, uuid);
    if Mismatched(InvokeRun(env, w, a, uuid)) {
      MismatchSource(env, w, a, uuid);
    }
  }

  /** One invoke, priced or metered, is charged at most once, for its post, with the price it
      asserted if it asserted one: polling is never charged. */
  lemma InvokeCharges(env: Env, billing: Billing, w: World, a: InvokeArgs, uuid: string)
    requires HonestBilling(env, billing) && ValidArgs(a)
    ensures Charges(billing, InvokeRun(env, w, a, uuid).world.log)
         == Charges(billing, w.log) + ChargeFor(billing, PostedLog(w, InvokeBody(a, uuid)))
    ensures var charge := billing(PostedLog(w, InvokeBody(a, uuid)));
      charge.Some? ==> PricedAs(SentCost(a.cost), charge.value)
  {
    InvokeIsAttempt(env, w, a, uuid);
    AttemptCharges(env, billing, w, InvokeBody(a, uuid), InvokeRun(env, w, a, uuid));
  }

  /** The second attempt of a run, if it makes one. */
  function SecondOf(env: Env, w: World, a: InvokeArgs, query: string, retries: int, uuid1: string,
                    uuid2: string): Second {
    if Retries(env, w, a, query, retries, uuid1)
    then Second(AfterSearch(env, w, a, query, uuid1), RetryBody(env, w, a, query, uuid1, uuid2))
    else NoSecond
  }

  lemma SearchPostsNothing(env: Env, w: World, a: InvokeArgs, query: string, uuid: string)
    ensures var first, searched := InvokeRun(env, w, a, uuid).world, AfterSearch(env, w, a, query, uuid);
      first.log <= searched.log && Posts(searched.log) == Posts(first.log)
  {
    SendCounts(env, InvokeRun(env, w, a, uuid).world, SearchRequest(query, a.serviceId));
  }

  lemma SecondIsAttempt(env: Env, w: World, a: InvokeArgs, query: string, retries: int,
                        uuid1: string, uuid2: string)
    requires ValidArgs(a) && Retries(env, w, a, query, retries, uuid1)
    ensures Attempt(env, AfterSearch(env, w, a, query, uuid1), RetryBody(env, w, a, query, uuid1, uuid2),
                    RediscoveryRun(env, w, a, query, retries, uuid1, uuid2))
  {
    var b := RetryArgs(a, RetryPrice(env, w, a, query, uuid1));
    InvokeIsAttempt(env, AfterSearch(env, w, a, query, uuid1), b, uuid2);
  }

  lemma RunIsAttempts(env: Env, w: World, a: InvokeArgs, query: string, retries: int, uuid1: string,
                      uuid2: string)
    requires ValidArgs(a)
    ensures Attempts(env, w, InvokeBody(a, uuid1), InvokeRun(env, w, a, uuid1),
                     SecondOf(env, w, a, query, retries, uuid1, uuid2),
                     RediscoveryRun(env, w, a, query, retries, uuid1, uuid2))
  {
    InvokeIsAttempt(env, w, a, uuid1);
    SearchPostsNothing(env, w, a, query, uuid1);
    if Retries(env, w, a, query, retries, uuid1) {
      SecondIsAttempt(env, w, a, query, retries, uuid1, uuid2);
    }
  }

  /** The price that the last attempt of a run asserts. */
  function LastAsserted(env: Env, w: World, a: InvokeArgs, query: string, retries: int, uuid1: string): Option<Cost> {
    if Retries(env, w, a, query, retries, uuid1) then Some(Number(Round6(RetryPrice(env, w, a, query, uuid1))))
    else SentCost(a.cost)
  }

  /** With honest billing, and lookups that never answer with a mismatch, a whole run is charged at
      most once, and then with the price its last attempt asserted. */
  lemma ChargedAtMostOnce(env: Env, billing: Billing, w: World, a: InvokeArgs, query: string, retries: int,
                          uuid1: string, uuid2: string)
    requires HonestBilling(env, billing) && LookupsNeverMismatch(env)
    ensures OneMoreAtMost(Charges(billing, w.log),
                          Charges(billing, RediscoveryRun(env, w, a, query, retries, uuid1, uuid2).world.log),
                          LastAsserted(env, w, a, query, retries, uuid1))
  {
    if ValidArgs(a) {
      RunIsAttempts(env, w, a, query, retries, uuid1, uuid2);
      LastAttemptCharged(env, billing, w, InvokeBody(a, uuid1), InvokeRun(env, w, a, uuid1),
                         SecondOf(env, w, a, query, retries, uuid1, uuid2),
                         RediscoveryRun(env, w, a, query, retries, uuid1, uuid2));
    }
  }

  /** With one idempotency key for both attempts, as when the caller gives it, and a gateway that
      charges no key twice, a run is charged at most once whatever lookups answer, and with the price
      that one of its attempts asserted. */
  lemma ChargedOnceByKey(env: Env, billing: Billing, w: World, a: InvokeArgs, query: string, retries: int,
                         uuid1: string, uuid2: string)
    requires HonestBilling(env, billing) && ChargesKeyOnce(billing)
    requires InvokeBody(a, uuid1).key == InvokeBody(a, uuid2).key
    ensures var before := Charges(billing, w.log);
      var after := Charges(billing, RediscoveryRun(env, w, a, query, retries, uuid1, uuid2).world.log);
      || OneMoreAtMost(before, after, SentCost(a.cost))
      || OneMoreAtMost(before, after, LastAsserted(env, w, a, query, retries, uuid1))
  {
    if ValidArgs(a) {
      RunIsAttempts(env, w, a, query, retries, uuid1, uuid2);
      SameKeyChargedOnce(env, billing, w, InvokeBody(a, uuid1), InvokeRun(env, w, a, uuid1),
                         SecondOf(env, w, a, query, retries, uuid1, uuid2),
                         RediscoveryRun(env, w, a, query, retries, uuid1, uuid2));
    }
  }

  // ----- two charges -----

  /** What the gateway must answer for a run to be charged twice: a mismatch to a lookup of the
      first attempt, a search with a positive price, and no mismatch to the second post. */
  predicate InvitesSecondCharge(env: Env, w: World, a: InvokeArgs, query: string, retries: int, uuid1: string,
                                uuid2: string)
  {
    && Retries(env, w, a, query, retries, uuid1)
    && EndsInLookupMismatch(env, InvokeRun(env, w, a, uuid1).world.log)
    && !IsMismatchAnswer(env.answer(SecondPost(env, w, a, query, uuid1, uuid2)))
  }

  /** Without the assumption on lookups, some honest billing charges the run twice if and only if
      the gateway answers a lookup of the first attempt with a mismatch, the search with a positive
      price and the second post with anything but a mismatch. */
  lemma ChargedTwiceExactly(env: Env, w: World, a: InvokeArgs, query: string, retries: int, uuid1: string,
                            uuid2: string)
    ensures (exists billing: Billing ::
               ChargesTwice(env, billing, w, RediscoveryRun(env, w, a, query, retries, uuid1, uuid2)))
       <==> InvitesSecondCharge(env, w, a, query, retries, uuid1, uuid2)
  {
    if ValidArgs(a) {
      RunIsAttempts(env, w, a, query, retries, uuid1, uuid2);
      TwiceExactly(env, w, InvokeBody(a, uuid1), InvokeRun(env, w, a, uuid1),
                   SecondOf(env, w, a, query, retries, uuid1, uuid2),
                   RediscoveryRun(env, w, a, query, retries, uuid1, uuid2));
    }
  }

  lemma LateInvoke(w: World, a: InvokeArgs, uuid: string)
    requires ValidArgs(a)
    ensures InvokeRun(LateMismatch(), w, a, uuid).outcome == Err(PriceMismatch(1.0, 1.0))
  {
    var w' := Send(LateMismatch(), w, InvokeBody(a, uuid));
    LateAnswers(w, InvokeBody(a, uuid));
    assert Strip("inv") == "inv";
    LateAnswers(w', GetReceipt("inv"));
  }

  lemma LateMismatchInvites(w: World, a: InvokeArgs, query: string, retries: int, uuid1: string, uuid2: string)
    requires ValidArgs(a) && retries > 0
    ensures InvitesSecondCharge(LateMismatch(), w, a, query, retries, uuid1, uuid2)
  {
    var env := LateMismatch();
    LateInvoke(w, a, uuid1);
    LateAnswers(InvokeRun(env, w, a, uuid1).world, SearchRequest(query, a.serviceId));
    LateAnswers(w, InvokeBody(a, uuid1));
    LateAnswers(AfterSearch(env, w, a, query, uuid1), RetryBody(env, w, a, query, uuid1, uuid2));
    MismatchSource(env, w, a, uuid1);
  }

  /** The assumption is needed: against this gateway, which accepts every post and then answers the
      lookup with a mismatch, every call that may retry is charged twice. */
  lemma LateMismatchChargesTwice(w: World, a: InvokeArgs, query: string, retries: int, uuid1: string,
                                 uuid2: string)
    requires ValidArgs(a) && retries > 0
    ensures ChargesTwice(LateMismatch(), GreedyBilling(LateMismatch()), w,
                         RediscoveryRun(LateMismatch(), w, a, query, retries, uuid1, uuid2))
  {
    var env := LateMismatch();
    LateMismatchInvites(w, a, query, retries, uuid1, uuid2);
    RunIsAttempts(env, w, a, query, retries, uuid1, uuid2);
    InvitedIsTwice(env, w, InvokeBody(a, uuid1), InvokeRun(env, w, a, uuid1),
                   SecondOf(env, w, a, query, retries, uuid1, uuid2),
                   RediscoveryRun(env, w, a, query, retries, uuid1, uuid2));
  }

  /** What a caller can see before the call: no honest gateway can charge it twice if and only if its
      arguments are refused, or it does not retry. */
  lemma SafeCallsExactly(w: World, a: InvokeArgs, query: string, retries: int, uuid1: string, uuid2: string)
    ensures (forall env: Env, billing: Billing ::
               !ChargesTwice(env, billing, w, RediscoveryRun(env, w, a, query, retries, uuid1, uuid2)))
       <==> !ValidArgs(a) || retries <= 0
  {
    if ValidArgs(a) && retries > 0 {
      LateMismatchChargesTwice(w, a, query, retries, uuid1, uuid2);
    } else {
      forall env: Env, billing: Billing
        ensures !ChargesTwice(env, billing, w, RediscoveryRun(env, w, a, query, retries, uuid1, uuid2))
      {
        ChargedTwiceExactly(env, w, a, query, retries, uuid1, uuid2);
      }
    }
  }

  /** If the gateway charges no idempotency key twice, the other calls become safe exactly when both
      attempts carry one key; a key of the caller's does that. */
  lemma SafeCallsByKeyExactly(w: World, a: InvokeArgs, query: string, retries: int, uuid1: string,
                              uuid2: string)
    ensures (forall env: Env, billing: Billing ::
               ChargesKeyOnce(billing) ==>
                 !ChargesTwice(env, billing, w, RediscoveryRun(env, w, a, query, retries, uuid1, uuid2)))
       <==> !ValidArgs(a) || retries <= 0 || InvokeBody(a, uuid1).key == InvokeBody(a, uuid2).key
    ensures a.key.Some? && a.key.value != "" ==> InvokeBody(a, uuid1).key == InvokeBody(a, uuid2).key
  {
    if !ValidArgs(a) || retries <= 0 {
      SafeCallsExactly(w, a, query, retries, uuid1, uuid2);
    } else if InvokeBody(a, uuid1).key == InvokeBody(a, uuid2).key {
      forall env: Env, billing: Billing | ChargesKeyOnce(billing)
        ensures !ChargesTwice(env, billing, w, RediscoveryRun(env, w, a, query, retries, uuid1, uuid2))
      {
        if HonestBilling(env, billing) {
          ChargedOnceByKey(env, billing, w, a, query, retries, uuid1, uuid2);
        }
      }
    } else {
      var env, billing := LateMismatch(), KeyedBilling(LateMismatch(), |w.log|);
      LateMismatchInvites(w, a, query, retries, uuid1, uuid2);
      RunIsAttempts(env, w, a, query, retries, uuid1, uuid2);
      OtherKeyIsTwice(env, w, InvokeBody(a, uuid1), InvokeRun(env, w, a, uuid1),
                      SecondOf(env, w, a, query, retries, uuid1, uuid2),
                      RediscoveryRun(env, w, a, query, retries, uuid1, uuid2));
      KeyedBillingChargesKeyOnce(env, |w.log|);
      var run := RediscoveryRun(env, w, a, query, retries, uuid1, uuid2);
      assert ChargesKeyOnce(billing) && ChargesTwice(env, billing, w, run);
    }
  }
}
