/** The Python and the TypeScript client on the same call and the same answers of the gateway.
 */
module ClientsCompared {
  import opened Text
  import opened Money
  import opened Gateway
  import PythonClient
  import TypeScriptClient

  /** The TypeScript client knows one error for a refused payment. */
  function Coarse(e: ClientError): ClientError {
    if e.BudgetExceeded? then InsufficientFunds else e
  }

  /** On a status in 400..599 both clients report an invoke alike, but for the kind of refused
      payment. They disagree on whether an answer is an error exactly for a status below 200, in
      300..399 or from 600 on, which only TypeScript takes for one. */
  lemma SameAnswerSameError(h: Http)
    ensures 400 <= h.status < 600 ==>
      var python, script := PythonClient.ErrorOf(h, false), TypeScriptClient.HttpError(h);
      && python.Some? && script.Some?
      && TypeScriptClient.InvokeError(script.value) == Coarse(python.value)
    ensures PythonClient.ErrorOf(h, false).Some? != TypeScriptClient.HttpError(h).Some?
       <==> h.status < 200 || 300 <= h.status < 400 || h.status >= 600
  {
  }

  /** A number is a whole number of millionths; a text, or no price, is always taken as it is. */
  predicate SentAsGiven(cost: Option<Cost>) {
    match cost
    case Some(Number(x)) => IsMicro(x)
    case _ => true
  }

  /** The same call posts the same body exactly when there is nothing to trim from its service and
      key, the key is not the empty text, and its price is in millionths. */
  lemma SameBodyExactly(p: PythonClient.InvokeArgs, t: TypeScriptClient.InvokeArgs, uuid: string)
    requires p.serviceId == t.serviceId && p.cost == t.cost && p.key == t.options.key && p.maxCost == None
    requires uuid != "" && Strip(uuid) == uuid
    ensures PythonClient.InvokeBody(p, uuid) == TypeScriptClient.InvokeBody(t, uuid)
       <==> && Strip(p.serviceId) == p.serviceId && SentAsGiven(p.cost)
            && (p.key.Some? ==> p.key.value != "" && Strip(p.key.value) == p.key.value)
  {
    if p.cost.Some? && p.cost.value.Number? {
      Round6IsNearest(p.cost.value.value);
    }
  }

  /** The answer to a post that leaves nothing to poll. */
  predicate Decided(h: Http) {
    400 <= h.status < 600 || (200 <= h.status < 300 && IsTerminal(h.receipt))
  }

  predicate SameOutcome(python: Outcome, script: Outcome) {
    match python
    case Ok(receipt) => script == Ok(receipt)
    case Err(e) => script == Err(Coarse(e))
  }

  /** A call that posts the same body with both clients, and is answered for good, runs alike: one
      request, the same time, the same receipt or error. */
  lemma DecidedRunsAgree(env: Env, w: World, p: PythonClient.InvokeArgs, t: TypeScriptClient.InvokeArgs, uuid: string)
    requires PythonClient.ValidArgs(p) && TypeScriptClient.ValidArgs(t)
    requires PythonClient.InvokeBody(p, uuid) == TypeScriptClient.InvokeBody(t, uuid)
    requires Decided(env.answer(PostedLog(w, PythonClient.InvokeBody(p, uuid))))
    ensures var python, script := PythonClient.InvokeRun(env, w, p, uuid), TypeScriptClient.InvokeRun(env, w, t, uuid);
      && python.world == script.world == Send(env, w, PythonClient.InvokeBody(p, uuid))
      && SameOutcome(python.outcome, script.outcome)
  {
    SameAnswerSameError(env.answer(PostedLog(w, PythonClient.InvokeBody(p, uuid))));
  }

  /** A 2xx answer that is not final, with an id that has nothing to trim. */
  predicate Open(h: Http) {
    200 <= h.status < 300 && !IsTerminal(h.receipt)
    && h.receipt.invocationId != "" && Strip(h.receipt.invocationId) == h.receipt.invocationId
  }

  /** In polling, TypeScript passes on what Python maps to a failed invoke. */
  predicate SamePolledOutcome(python: Outcome, script: Outcome) {
    match python
    case Ok(receipt) => script == Ok(receipt)
    case Err(e) => script == Err(if e.InvokeFailed? then Unmapped else Coarse(e))
  }

  /** The answer to a lookup of `id` at `w`. */
  function LookupAnswer(env: Env, w: World, id: string): Http { env.answer(PostedLog(w, GetReceipt(id))) }

  lemma FirstLookupAgrees(env: Env, w: World, id: string, limit: real, interval: int, deadline: real, delay: int)
    requires id != "" && Strip(id) == id && interval >= 1 && delay >= 1 && w.now < deadline
    requires Decided(LookupAnswer(env, w, id))
    ensures var python := PythonClient.WaitRun(env, w, id, limit, interval);
      var script := TypeScriptClient.WaitRun(env, w, id, deadline, delay);
      && python.world == script.world == Send(env, w, GetReceipt(id))
      && SamePolledOutcome(python.outcome, script.outcome)
  {
    SameAnswerSameError(LookupAnswer(env, w, id));
  }

  /** When the answer is open, and the first lookup is answered for good, the runs still agree, but for
      an error of no kind of its own: Python reports a failed invoke, TypeScript passes it on. */
  lemma PolledRunsAgree(env: Env, w: World, p: PythonClient.InvokeArgs, t: TypeScriptClient.InvokeArgs, uuid: string)
    requires PythonClient.ValidArgs(p) && TypeScriptClient.ValidArgs(t) && TypeScriptClient.Timeout(t.options) > 0
    requires PythonClient.InvokeBody(p, uuid) == TypeScriptClient.InvokeBody(t, uuid)
    requires var w' := Send(env, w, PythonClient.InvokeBody(p, uuid));
      var h := env.answer(w'.log);
      Open(h) && Decided(LookupAnswer(env, w', h.receipt.invocationId))
    ensures var python, script := PythonClient.InvokeRun(env, w, p, uuid), TypeScriptClient.InvokeRun(env, w, t, uuid);
      && python.world == script.world
      && SamePolledOutcome(python.outcome, script.outcome)
  {
    var w', o := Send(env, w, PythonClient.InvokeBody(p, uuid)), t.options;
    var id := env.answer(w'.log).receipt.invocationId;
    FirstLookupAgrees(env, w', id, w'.now + p.pollTimeout as real, 1,
                      w'.now + TypeScriptClient.Timeout(o) as real, TypeScriptClient.Delay(o));
  }
}
