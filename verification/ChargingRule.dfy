/** What a gateway charges along a history, and how often it charges a run that retries after a price
    mismatch, whatever client performs it.
 */
module ChargingRule {
  import opened Text
  import opened Gateway
  import Decimals

  // ----- what a gateway charges -----

  /** How much the request that ends a history is charged, if anything. */
  type Billing = seq<Event> -> Option<real>

  function ChargeFor(billing: Billing, log: seq<Event>): seq<real> {
    match billing(log) case None => [] case Some(x) => [x]
  }

  function Charges(billing: Billing, log: seq<Event>): seq<real> {
    if log == [] then []
    else Charges(billing, log[..|log| - 1]) + ChargeFor(billing, log)
  }

  /** `amount` is what the price of a request comes to: the number it asserts, or the one that its
      text denotes. A request without a price, as for a metered service, leaves the amount open. */
  predicate PricedAs(price: Option<Cost>, amount: real) {
    match price
    case Some(Number(x)) => amount == x
    case Some(Text(t)) => Decimals.IsUnsigned(t) ==> amount == Decimals.Exact(t)
    case None => true
  }

  /** The charges grew by at most one, and that comes to the price. */
  predicate OneMoreAtMost(before: seq<real>, after: seq<real>, price: Option<Cost>) {
    || after == before
    || (|after| == |before| + 1 && after[..|before|] == before && PricedAs(price, after[|before|]))
  }

  lemma OneMore(billing: Billing, log: seq<Event>, before: seq<real>, price: Option<Cost>)
    requires billing(log).Some? ==> PricedAs(price, billing(log).value)
    ensures OneMoreAtMost(before, before + ChargeFor(billing, log), price)
  {
    if billing(log).Some? {
      assert (before + [billing(log).value])[..|before|] == before;
    } else {
      assert before + [] == before;
    }
  }

  ghost predicate HonestAt(env: Env, billing: Billing, log: seq<Event>) {
    billing(log).Some? ==>
      && log != [] && IsPost(log[|log| - 1])
      && !IsMismatchAnswer(env.answer(log))
      && PricedAs(log[|log| - 1].request.cost, billing(log).value)
  }

  /** The published pricing rule: only an invoke that is not answered with a price mismatch is
      charged; with the price it asserted if it asserted one, else with what the gateway meters. */
  ghost predicate HonestBilling(env: Env, billing: Billing) {
    forall log: seq<Event> :: HonestAt(env, billing, log)
  }

  /** An honest billing under which a run is charged twice. */
  ghost predicate ChargesTwice(env: Env, billing: Billing, w: World, r: Run) {
    HonestBilling(env, billing) && |Charges(billing, r.world.log)| == |Charges(billing, w.log)| + 2
  }

  ghost predicate LookupAnsweredAt(env: Env, log: seq<Event>) {
    log != [] && IsLookup(log[|log| - 1]) ==> !IsMismatchAnswer(env.answer(log))
  }

  /** Receipt lookups are never answered with a price mismatch. */
  ghost predicate LookupsNeverMismatch(env: Env) {
    forall log: seq<Event> :: LookupAnsweredAt(env, log)
  }

  lemma ChargesSnoc(env: Env, billing: Billing, log: seq<Event>, e: Event)
    requires HonestBilling(env, billing)
    ensures Charges(billing, log + [e])
         == Charges(billing, log) + ChargeFor(billing, log + [e])
    ensures !IsPost(e) || IsMismatchAnswer(env.answer(log + [e])) ==>
      Charges(billing, log + [e]) == Charges(billing, log)
  {
    assert (log + [e])[..|log|] == log;
    assert HonestAt(env, billing, log + [e]);
  }

  predicate EndsInLookupMismatch(env: Env, log: seq<Event>) {
    log != [] && IsLookup(log[|log| - 1]) && IsMismatchAnswer(env.answer(log))
  }

  lemma {:induction false} PostsGrow(log: seq<Event>, log': seq<Event>)
    requires log <= log'
    ensures |Posts(log)| <= |Posts(log')|
    decreases |log'|
  {
    if |log| < |log'| {
      PostsGrow(log, log'[..|log'| - 1]);
    } else {
      assert log == log';
    }
  }

  /** Whatever a history adds besides invokes is not charged. */
  lemma {:induction false} OnlyPostsCharged(env: Env, billing: Billing, log: seq<Event>, log': seq<Event>)
    requires HonestBilling(env, billing)
    requires log <= log' && Posts(log) == Posts(log')
    ensures Charges(billing, log') == Charges(billing, log)
    decreases |log'|
  {
    if |log| < |log'| {
      var front, e := log'[..|log'| - 1], log'[|log'| - 1];
      assert log' == front + [e];
      PostsSnoc(front, e);
      PostsGrow(log, front);
      ChargesSnoc(env, billing, front, e);
      OnlyPostsCharged(env, billing, log, front);
    } else {
      assert log == log';
    }
  }

  /** An invoke and whatever follows it without another: charged once at most, for the invoke, at
      the price it asserted, and not at all if its own answer is a mismatch. */
  lemma OnePostCharged(env: Env, billing: Billing, w: World, body: Request, log': seq<Event>)
    requires HonestBilling(env, billing) && body.PostInvoke?
    requires PostedLog(w, body) <= log' && Posts(log') == Posts(PostedLog(w, body))
    ensures Charges(billing, log') == Charges(billing, w.log) + ChargeFor(billing, PostedLog(w, body))
    ensures billing(PostedLog(w, body)).Some? ==>
      && PricedAs(body.cost, billing(PostedLog(w, body)).value)
      && !IsMismatchAnswer(env.answer(PostedLog(w, body)))
  {
    OnlyPostsCharged(env, billing, PostedLog(w, body), log');
    ChargesSnoc(env, billing, w.log, Sent(w.now, body));
    assert HonestAt(env, billing, PostedLog(w, body));
  }

  // ----- two gateways -----

  /** What a price comes to; a request without one is metered at zero. */
  function AmountOf(price: Option<Cost>): (amount: real)
    ensures PricedAs(price, amount)
  {
    match price
    case Some(Number(x)) => x
    case Some(Text(t)) => if Decimals.IsUnsigned(t) then Decimals.Exact(t) else 0.0
    case None => 0.0
  }

  function GreedyCharge(env: Env, log: seq<Event>): Option<real> {
    if log != [] && IsPost(log[|log| - 1]) && !IsMismatchAnswer(env.answer(log))
    then Some(AmountOf(log[|log| - 1].request.cost)) else None
  }

  /** The billing that charges every invoke the pricing rule allows to charge. */
  function GreedyBilling(env: Env): Billing {
    (log: seq<Event>) => GreedyCharge(env, log)
  }

  lemma GreedyBillingIsHonest(env: Env)
    ensures HonestBilling(env, GreedyBilling(env))
  {
    forall log: seq<Event>
      ensures HonestAt(env, GreedyBilling(env), log)
    {
    }
  }

  function LateAnswer(log: seq<Event>): Http {
    if log != [] && IsLookup(log[|log| - 1])
    then Http(422, Coded("PRICE_MISMATCH", 1.0, 1.0), Receipt("", "PENDING", 0.0), [])
    else Http(202, NoDetail, Receipt("inv", "PENDING", 0.0), [])
  }

  function NoLag(log: seq<Event>): Lag { 0.0 }

  /** A gateway that accepts every invoke as pending and answers every lookup with a mismatch. */
  function LateMismatch(): Env { Env(LateAnswer, NoLag) }

  lemma LateAnswers(w: World, r: Request)
    ensures LateMismatch().answer(PostedLog(w, r)) == LateAnswer(PostedLog(w, r))
    ensures IsMismatchAnswer(LateMismatch().answer(PostedLog(w, r))) <==> r.GetReceipt?
  {
  }

  // ----- attempts -----

  /** `r` posts `body` from `w` and then only polls. A mismatch that ends it was answered either to
      the post or to the last lookup, not to both. */
  ghost predicate Attempt(env: Env, w: World, body: Request, r: Run) {
    && body.PostInvoke?
    && PostedLog(w, body) <= r.world.log
    && Posts(r.world.log) == Posts(w.log) + [body]
    && (Mismatched(r) ==>
          (EndsInLookupMismatch(env, r.world.log) <==> !IsMismatchAnswer(env.answer(PostedLog(w, body)))))
  }

  /** An attempt, priced or metered, is charged at most once, for its post, with the price it
      asserted if it asserted one: polling is never charged. */
  lemma AttemptCharges(env: Env, billing: Billing, w: World, body: Request, r: Run)
    requires HonestBilling(env, billing) && Attempt(env, w, body, r)
    ensures Charges(billing, r.world.log) == Charges(billing, w.log) + ChargeFor(billing, PostedLog(w, body))
    ensures billing(PostedLog(w, body)).Some? ==>
      && PricedAs(body.cost, billing(PostedLog(w, body)).value)
      && !IsMismatchAnswer(env.answer(PostedLog(w, body)))
  {
    PostsSnoc(w.log, Sent(w.now, body));
    OnePostCharged(env, billing, w, body, r.world.log);
  }

  /** Where a second attempt starts, and its body. */
  datatype Second = NoSecond | Second(from: World, body: Request)

  /** `r` is the attempt `first`, and after a mismatch possibly a second one; nothing else is posted. */
  ghost predicate Attempts(env: Env, w: World, body: Request, first: Run, second: Second, r: Run) {
    && Attempt(env, w, body, first)
    && first.world.log <= r.world.log
    && match second
       case NoSecond => Posts(r.world.log) == Posts(first.world.log)
       case Second(w', body') =>
         && Mismatched(first)
         && first.world.log <= w'.log && Posts(w'.log) == Posts(first.world.log)
         && Attempt(env, w', body', r)
  }

  function SecondCharge(billing: Billing, second: Second): seq<real> {
    match second
    case NoSecond => []
    case Second(w', body') => ChargeFor(billing, PostedLog(w', body'))
  }

  /** The charges of a run are those of its posts. */
  lemma AttemptsCharges(env: Env, billing: Billing, w: World, body: Request, first: Run, second: Second, r: Run)
    requires HonestBilling(env, billing) && Attempts(env, w, body, first, second, r)
    ensures Charges(billing, r.world.log)
         == Charges(billing, w.log) + ChargeFor(billing, PostedLog(w, body)) + SecondCharge(billing, second)
  {
    AttemptCharges(env, billing, w, body, first);
    match second
    case NoSecond =>
      OnlyPostsCharged(env, billing, first.world.log, r.world.log);
    case Second(w', body') =>
      OnlyPostsCharged(env, billing, first.world.log, w'.log);
      AttemptCharges(env, billing, w', body', r);
  }

  /** The price the last attempt asserts. */
  function LastPrice(body: Request, second: Second): Option<Cost>
    requires body.PostInvoke? && (second.Second? ==> second.body.PostInvoke?)
  {
    if second.Second? then second.body.cost else body.cost
  }

  /** When lookups never answer with a mismatch, an attempt that ends in one was not charged, and the
      run is charged at most once, with the price of its last attempt. */
  lemma LastAttemptCharged(env: Env, billing: Billing, w: World, body: Request, first: Run, second: Second, r: Run)
    requires HonestBilling(env, billing) && LookupsNeverMismatch(env)
    requires Attempts(env, w, body, first, second, r)
    ensures OneMoreAtMost(Charges(billing, w.log), Charges(billing, r.world.log), LastPrice(body, second))
    ensures second.Second? ==> Charges(billing, first.world.log) == Charges(billing, w.log)
  {
    var posted := PostedLog(w, body);
    AttemptsCharges(env, billing, w, body, first, second, r);
    AttemptCharges(env, billing, w, body, first);
    match second
    case NoSecond =>
      OneMore(billing, posted, Charges(billing, w.log), body.cost);
    case Second(w', body') =>
      assert LookupAnsweredAt(env, first.world.log);
      AttemptCharges(env, billing, w', body', r);
      OneMore(billing, PostedLog(w', body'), Charges(billing, w.log), body'.cost);
  }

  // ----- two charges -----

  /** What the gateway must answer for a run to be charged twice: a mismatch to the last lookup of
      the first attempt, and no mismatch to the second post. */
  ghost predicate Invites(env: Env, first: Run, second: Second) {
    && second.Second?
    && EndsInLookupMismatch(env, first.world.log)
    && !IsMismatchAnswer(env.answer(PostedLog(second.from, second.body)))
  }

  /** Whatever an honest gateway bills, it charges twice only after such answers, */
  lemma TwiceIsInvited(env: Env, billing: Billing, w: World, body: Request, first: Run, second: Second, r: Run)
    requires Attempts(env, w, body, first, second, r) && ChargesTwice(env, billing, w, r)
    ensures Invites(env, first, second)
  {
    AttemptsCharges(env, billing, w, body, first, second, r);
    AttemptCharges(env, billing, w, body, first);
    if second.Second? {
      AttemptCharges(env, billing, second.from, second.body, r);
    }
  }

  /** and after such answers it may honestly do so. */
  lemma InvitedIsTwice(env: Env, w: World, body: Request, first: Run, second: Second, r: Run)
    requires Attempts(env, w, body, first, second, r) && Invites(env, first, second)
    ensures ChargesTwice(env, GreedyBilling(env), w, r)
  {
    GreedyBillingIsHonest(env);
    AttemptsCharges(env, GreedyBilling(env), w, body, first, second, r);
  }

  lemma TwiceExactly(env: Env, w: World, body: Request, first: Run, second: Second, r: Run)
    requires Attempts(env, w, body, first, second, r)
    ensures (exists billing: Billing :: ChargesTwice(env, billing, w, r)) <==> Invites(env, first, second)
  {
    if Invites(env, first, second) {
      InvitedIsTwice(env, w, body, first, second, r);
    }
    if billing: Billing :| ChargesTwice(env, billing, w, r) {
      TwiceIsInvited(env, billing, w, body, first, second, r);
    }
  }

  // ----- idempotency keys -----

  /** Both histories end in an invoke, with the same idempotency key. */
  predicate SameKey(log: seq<Event>, log': seq<Event>) {
    && log != [] && IsPost(log[|log| - 1])
    && log' != [] && IsPost(log'[|log'| - 1])
    && log[|log| - 1].request.key == log'[|log'| - 1].request.key
  }

  /** Along a history no idempotency key is charged twice. */
  ghost predicate ChargesKeyOnce(billing: Billing) {
    forall log, log' :: log < log' && SameKey(log, log') && billing(log).Some? ==> billing(log').None?
  }

  /** Two attempts with one key are charged at most once, whatever lookups answer, and with the price
      that one of them asserted. */
  lemma SameKeyChargedOnce(env: Env, billing: Billing, w: World, body: Request, first: Run, second: Second, r: Run)
    requires HonestBilling(env, billing) && ChargesKeyOnce(billing)
    requires Attempts(env, w, body, first, second, r)
    requires second.Second? ==> second.body.key == body.key
    ensures var before, after := Charges(billing, w.log), Charges(billing, r.world.log);
      OneMoreAtMost(before, after, body.cost) || OneMoreAtMost(before, after, LastPrice(body, second))
  {
    var before, posted := Charges(billing, w.log), PostedLog(w, body);
    AttemptsCharges(env, billing, w, body, first, second, r);
    AttemptCharges(env, billing, w, body, first);
    OneMore(billing, posted, before, body.cost);
    if second.Second? {
      var posted' := PostedLog(second.from, second.body);
      AttemptCharges(env, billing, second.from, second.body, r);
      OneMore(billing, posted', before, second.body.cost);
      assert posted < posted' && SameKey(posted, posted');
    }
  }

  /** An invoke after the first `from` events has the key of the one that ends the history. */
  predicate Reused(log: seq<Event>, from: nat)
    requires log != [] && IsPost(log[|log| - 1])
  {
    exists i :: from <= i < |log| - 1 && IsPost(log[i]) && log[i].request.key == log[|log| - 1].request.key
  }

  function KeyedCharge(env: Env, from: nat, log: seq<Event>): Option<real> {
    if |log| > from && IsPost(log[|log| - 1]) && !Reused(log, from) then GreedyCharge(env, log) else None
  }

  /** The billing that charges, after the first `from` events, every invoke it may charge whose key
      is new. */
  function KeyedBilling(env: Env, from: nat): Billing {
    (log: seq<Event>) => KeyedCharge(env, from, log)
  }

  lemma KeyedBillingIsHonest(env: Env, from: nat)
    ensures HonestBilling(env, KeyedBilling(env, from))
  {
    forall log: seq<Event>
      ensures HonestAt(env, KeyedBilling(env, from), log)
    {
    }
  }

  lemma KeyedBillingChargesKeyOnce(env: Env, from: nat)
    ensures ChargesKeyOnce(KeyedBilling(env, from))
  {
    forall log, log' | log < log' && SameKey(log, log') && KeyedCharge(env, from, log).Some?
      ensures KeyedCharge(env, from, log').None?
    {
      assert log'[|log| - 1] == log[|log| - 1];
      assert |log'| > from ==> Reused(log', from);
    }
  }

  lemma {:induction false} NoPostsBetween(log: seq<Event>, log': seq<Event>)
    requires log <= log' && Posts(log) == Posts(log')
    ensures forall i :: |log| <= i < |log'| ==> !IsPost(log'[i])
    decreases |log'|
  {
    if |log| < |log'| {
      var front, e := log'[..|log'| - 1], log'[|log'| - 1];
      assert log' == front + [e];
      PostsSnoc(front, e);
      PostsGrow(log, front);
      NoPostsBetween(log, front);
    }
  }

  /** After the answers that invite it, two attempts with different keys can be charged twice by a
      gateway that charges no key twice. */
  lemma OtherKeyIsTwice(env: Env, w: World, body: Request, first: Run, second: Second, r: Run)
    requires Attempts(env, w, body, first, second, r) && Invites(env, first, second)
    requires second.body.PostInvoke? && second.body.key != body.key
    ensures ChargesTwice(env, KeyedBilling(env, |w.log|), w, r)
  {
    var billing := KeyedBilling(env, |w.log|);
    var posted, posted' := PostedLog(w, body), PostedLog(second.from, second.body);
    KeyedBillingIsHonest(env, |w.log|);
    AttemptsCharges(env, billing, w, body, first, second, r);
    PostsSnoc(w.log, Sent(w.now, body));
    NoPostsBetween(posted, second.from.log);
    assert posted'[|w.log|] == posted[|w.log|];
    assert !Reused(posted', |w.log|);
  }
}
