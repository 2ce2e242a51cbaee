/** What the gateway charges for the calls of a budgeted wallet, against what the wallet records.
 */
module WalletCharges {
  import opened Text
  import opened Money
  import opened Gateway
  import opened ChargingRule
  import opened PythonClient
  import opened PythonProtocol
  import opened Wallet

  /** What a caller asks of the wallet. */
  datatype Order = Order(args: InvokeArgs, cost: real, uuid: string)

  /** Where a run of orders has led, and what came of each. */
  datatype Tab = Tab(world: World, calls: seq<Call>)

  function OrderRun(env: Env, budget: real, t: Tab, o: Order): Run {
    CallRun(env, budget, Spent(budget, t.calls), t.world, o.args, o.cost, o.uuid)
  }

  /** A run of orders on a new wallet whose client stands at `w`. */
  function TabAfter(env: Env, budget: real, w: World, orders: seq<Order>): Tab {
    if orders == [] then Tab(w, [])
    else
      var t, o := TabAfter(env, budget, w, orders[..|orders| - 1]), orders[|orders| - 1];
      var r := OrderRun(env, budget, t, o);
      Tab(r.world, t.calls + [Call(o.cost, r.outcome)])
  }

  function Total(xs: seq<real>): real {
    if xs == [] then 0.0 else Total(xs[..|xs| - 1]) + xs[|xs| - 1]
  }

  /** All that the gateway charged between `w` and `w'`. */
  function BilledBetween(billing: Billing, w: World, w': World): real {
    Total(Charges(billing, w'.log)) - Total(Charges(billing, w.log))
  }

  /** What the gateway charges for an order that the budget covers. */
  function Billed(billing: Billing, w: World, o: Order): real {
    var a := Priced(o.args, o.cost);
    if ValidArgs(a) && billing(PostedLog(w, InvokeBody(a, o.uuid))).Some?
    then billing(PostedLog(w, InvokeBody(a, o.uuid))).value else 0.0
  }

  /** What the caller, and the wallet, gets to see of it. */
  function Reported(outcome: Outcome): real { if outcome.Ok? then outcome.value.charged else 0.0 }

  predicate Covered(budget: real, t: Tab, o: Order) { Spent(budget, t.calls) + o.cost <= budget }

  /** The order is refused, or what the gateway charges for it is what a returned receipt reports. */
  predicate Accounted(env: Env, billing: Billing, budget: real, t: Tab, o: Order) {
    Covered(budget, t, o) ==> Billed(billing, t.world, o) == Reported(OrderRun(env, budget, t, o).outcome)
  }

  ghost predicate AllAccounted(env: Env, billing: Billing, budget: real, w: World, orders: seq<Order>) {
    forall k :: 0 <= k < |orders| ==> Accounted(env, billing, budget, TabAfter(env, budget, w, orders[..k]), orders[k])
  }

  lemma TotalSnoc(xs: seq<real>, x: real)
    ensures Total(xs + [x]) == Total(xs) + x
  {
    assert (xs + [x])[..|xs|] == xs;
  }

  lemma OrderBilled(env: Env, billing: Billing, budget: real, t: Tab, o: Order)
    requires HonestBilling(env, billing)
    ensures BilledBetween(billing, t.world, OrderRun(env, budget, t, o).world)
         == if Covered(budget, t, o) then Billed(billing, t.world, o) else 0.0
  {
    var a := Priced(o.args, o.cost);
    if Covered(budget, t, o) && ValidArgs(a) {
      var posted := PostedLog(t.world, InvokeBody(a, o.uuid));
      InvokeCharges(env, billing, t.world, a, o.uuid);
      if billing(posted).Some? {
        TotalSnoc(Charges(billing, t.world.log), billing(posted).value);
      } else {
        assert Charges(billing, t.world.log) + [] == Charges(billing, t.world.log);
      }
    }
  }

  lemma CallsSnoc(budget: real, calls: seq<Call>, c: Call)
    ensures Spent(budget, calls + [c]) == Step(budget, Spent(budget, calls), c)
    ensures TrueSum(budget, calls + [c])
         == TrueSum(budget, calls) + if Affordable(budget, Spent(budget, calls), c) then Reported(c.outcome) else 0.0
  {
    assert (calls + [c])[..|calls|] == calls;
  }

  lemma NextTab(env: Env, budget: real, w: World, orders: seq<Order>, k: nat)
    requires k < |orders|
    ensures var t, o := TabAfter(env, budget, w, orders[..k]), orders[k];
      var r := OrderRun(env, budget, t, o);
      TabAfter(env, budget, w, orders[..k + 1]) == Tab(r.world, t.calls + [Call(o.cost, r.outcome)])
  {
    assert orders[..k + 1][..k] == orders[..k];
  }

  /** By how much the gateway's charges exceed the reported ones. */
  function Gap(billing: Billing, budget: real, w: World, t: Tab): real {
    BilledBetween(billing, w, t.world) - TrueSum(budget, t.calls)
  }

  lemma NextGap(env: Env, billing: Billing, budget: real, w: World, orders: seq<Order>, k: nat)
    requires HonestBilling(env, billing) && k < |orders|
    ensures var t, o := TabAfter(env, budget, w, orders[..k]), orders[k];
      Gap(billing, budget, w, TabAfter(env, budget, w, orders[..k + 1]))
        == Gap(billing, budget, w, t)
             + if Covered(budget, t, o)
               then Billed(billing, t.world, o) - Reported(OrderRun(env, budget, t, o).outcome) else 0.0
  {
    var t, o := TabAfter(env, budget, w, orders[..k]), orders[k];
    NextTab(env, budget, w, orders, k);
    OrderBilled(env, billing, budget, t, o);
    CallsSnoc(budget, t.calls, Call(o.cost, OrderRun(env, budget, t, o).outcome));
  }

  ghost predicate NeverOff(env: Env, billing: Billing, budget: real, w: World, orders: seq<Order>) {
    forall k :: 0 <= k <= |orders| ==> Gap(billing, budget, w, TabAfter(env, budget, w, orders[..k])) == 0.0
  }

  lemma {:induction false} NoGap(env: Env, billing: Billing, budget: real, w: World, orders: seq<Order>, k: nat)
    requires HonestBilling(env, billing) && AllAccounted(env, billing, budget, w, orders) && k <= |orders|
    ensures Gap(billing, budget, w, TabAfter(env, budget, w, orders[..k])) == 0.0
  {
    if k > 0 {
      NoGap(env, billing, budget, w, orders, k - 1);
      NextGap(env, billing, budget, w, orders, k - 1);
      assert Accounted(env, billing, budget, TabAfter(env, budget, w, orders[..k - 1]), orders[k - 1]);
    }
  }

  /** All along a run the gateway's charges are the sum of the reported ones if and only if every
      order that is let through ends in a receipt that reports its charge, or is not charged. */
  lemma ReportedIsBilledExactly(env: Env, billing: Billing, budget: real, w: World, orders: seq<Order>)
    requires HonestBilling(env, billing)
    ensures NeverOff(env, billing, budget, w, orders) <==> AllAccounted(env, billing, budget, w, orders)
  {
    if NeverOff(env, billing, budget, w, orders) {
      forall k | 0 <= k < |orders|
        ensures Accounted(env, billing, budget, TabAfter(env, budget, w, orders[..k]), orders[k])
      {
        NextGap(env, billing, budget, w, orders, k);
        assert Gap(billing, budget, w, TabAfter(env, budget, w, orders[..k])) == 0.0;
        assert Gap(billing, budget, w, TabAfter(env, budget, w, orders[..k + 1])) == 0.0;
      }
    }
    if AllAccounted(env, billing, budget, w, orders) {
      forall k | 0 <= k <= |orders|
        ensures Gap(billing, budget, w, TabAfter(env, budget, w, orders[..k])) == 0.0
      {
        NoGap(env, billing, budget, w, orders, k);
      }
    }
  }

  lemma ReportedFits(env: Env, billing: Billing, budget: real, t: Tab, o: Order)
    requires HonestBilling(env, billing) && BelowHalf(budget)
    requires Accounted(env, billing, budget, t, o)
    requires IsMicro(Spent(budget, t.calls)) && Spent(budget, t.calls) <= WholePart(budget)
    ensures var c := Call(o.cost, OrderRun(env, budget, t, o).outcome);
      && Step(budget, Spent(budget, t.calls), c) <= WholePart(budget)
      && (Charged(budget, Spent(budget, t.calls), c) ==> IsMicro(Reported(c.outcome)))
  {
    var a, spent := Priced(o.args, o.cost), Spent(budget, t.calls);
    Round6IsNearest(spent);
    WholeMillionths(0.0, 0);
    if Covered(budget, t, o) && Billed(billing, t.world, o) != 0.0 {
      InvokeCharges(env, billing, t.world, a, o.uuid);
      Round6IsNearest(o.cost);
      ChargeFits(budget, spent, o.cost, Round6(o.cost));
    }
  }

  lemma StepIsSum(budget: real, spent: real, c: Call)
    requires IsMicro(spent) && (Charged(budget, spent, c) ==> IsMicro(Reported(c.outcome)))
    ensures Step(budget, spent, c) == spent + if Affordable(budget, spent, c) then Reported(c.outcome) else 0.0
  {
    if Charged(budget, spent, c) {
      MicroSum(spent, Reported(c.outcome));
      Round6IsNearest(spent + Reported(c.outcome));
    }
  }

  ghost predicate RecordedFits(budget: real, calls: seq<Call>) {
    TrueSum(budget, calls) == Spent(budget, calls) <= WholePart(budget)
  }

  lemma RecordedFitsNext(env: Env, billing: Billing, budget: real, t: Tab, o: Order)
    requires HonestBilling(env, billing) && BelowHalf(budget)
    requires Accounted(env, billing, budget, t, o) && RecordedFits(budget, t.calls)
    ensures RecordedFits(budget, t.calls + [Call(o.cost, OrderRun(env, budget, t, o).outcome)])
  {
    var c := Call(o.cost, OrderRun(env, budget, t, o).outcome);
    SpentIsMicro(budget, t.calls);
    ReportedFits(env, billing, budget, t, o);
    CallsSnoc(budget, t.calls, c);
    StepIsSum(budget, Spent(budget, t.calls), c);
  }

  lemma WholePartNotNegative(x: real)
    requires x >= 0.0
    ensures WholePart(x) >= 0.0
  {
    assert (x * 1_000_000.0).Floor >= 0;
  }

  lemma NothingRecorded(budget: real)
    requires 0.0 <= budget
    ensures RecordedFits(budget, [])
  {
    WholePartNotNegative(budget);
  }

  lemma RecordedFitsAfter(env: Env, billing: Billing, budget: real, w: World, orders: seq<Order>, k: nat)
    requires HonestBilling(env, billing) && k < |orders| && BelowHalf(budget)
    requires Accounted(env, billing, budget, TabAfter(env, budget, w, orders[..k]), orders[k])
    requires RecordedFits(budget, TabAfter(env, budget, w, orders[..k]).calls)
    ensures RecordedFits(budget, TabAfter(env, budget, w, orders[..k + 1]).calls)
  {
    NextTab(env, budget, w, orders, k);
    RecordedFitsNext(env, billing, budget, TabAfter(env, budget, w, orders[..k]), orders[k]);
  }

  lemma {:induction false} RecordedFitsAlong(env: Env, billing: Billing, budget: real, w: World, orders: seq<Order>,
                                             k: nat)
    requires HonestBilling(env, billing) && AllAccounted(env, billing, budget, w, orders) && k <= |orders|
    requires 0.0 <= budget && BelowHalf(budget)
    ensures RecordedFits(budget, TabAfter(env, budget, w, orders[..k]).calls)
  {
    if k == 0 {
      NothingRecorded(budget);
    } else {
      RecordedFitsAlong(env, billing, budget, w, orders, k - 1);
      RecordedFitsAfter(env, billing, budget, w, orders, k - 1);
    }
  }

  /** With honest billing and every charge accounted for, what the gateway really charges over any
      run is what the wallet records, and within such a budget. */
  lemma BilledWithinBudget(env: Env, billing: Billing, budget: real, w: World, orders: seq<Order>)
    requires HonestBilling(env, billing) && AllAccounted(env, billing, budget, w, orders)
    requires 0.0 <= budget && BelowHalf(budget)
    ensures var t := TabAfter(env, budget, w, orders);
      BilledBetween(billing, w, t.world) == Spent(budget, t.calls) <= WholePart(budget) <= budget
  {
    WholePartIsMicro(budget);
    NoGap(env, billing, budget, w, orders, |orders|);
    RecordedFitsAlong(env, billing, budget, w, orders, |orders|);
    assert orders[..|orders|] == orders;
  }

  // ----- charges that are never reported -----

  function PendingAnswer(log: seq<Event>): Http { Http(202, NoDetail, Receipt("inv", "PENDING", 0.0), []) }

  /** A gateway that accepts every invoke and never finishes one. */
  function NeverDone(): Env { Env(PendingAnswer, NoLag) }

  lemma {:induction false} NeverDoneTimesOut(w: World, limit: real, interval: int)
    requires interval >= 1
    ensures WaitRun(NeverDone(), w, "inv", limit, interval).outcome == Err(TimedOut)
    decreases Remaining(limit, w.now)
  {
    assert Strip("inv") == "inv";
    var first := LookupRun(NeverDone(), w, "inv");
    if first.world.now + interval as real <= limit {
      NeverDoneTimesOut(Sleep(first.world, interval as real), limit, interval);
    }
  }

  function Copies(o: Order, n: nat): (orders: seq<Order>)
    ensures |orders| == n && forall i :: 0 <= i < n ==> orders[i] == o
  {
    seq(n, i => o)
  }

  lemma UnreportedOrder(budget: real, t: Tab, o: Order)
    requires ValidArgs(Priced(o.args, o.cost)) && Covered(budget, t, o)
    ensures OrderRun(NeverDone(), budget, t, o).outcome == Err(TimedOut)
    ensures Billed(GreedyBilling(NeverDone()), t.world, o) == Round6(o.cost)
  {
    var a := Priced(o.args, o.cost);
    var w' := Send(NeverDone(), t.world, InvokeBody(a, o.uuid));
    NeverDoneTimesOut(w', w'.now + a.pollTimeout as real, 1);
  }

  lemma OneCopyMore(w: World, budget: real, o: Order, n: nat)
    requires n > 0
    ensures var t := TabAfter(NeverDone(), budget, w, Copies(o, n - 1));
      var r := OrderRun(NeverDone(), budget, t, o);
      TabAfter(NeverDone(), budget, w, Copies(o, n)) == Tab(r.world, t.calls + [Call(o.cost, r.outcome)])
  {
    assert Copies(o, n)[..n - 1] == Copies(o, n - 1);
  }

  lemma UnreportedOnce(w: World, budget: real, t: Tab, o: Order)
    requires ValidArgs(Priced(o.args, o.cost)) && o.cost <= budget && Spent(budget, t.calls) == 0.0
    ensures var r := OrderRun(NeverDone(), budget, t, o);
      && Spent(budget, t.calls + [Call(o.cost, r.outcome)]) == 0.0
      && BilledBetween(GreedyBilling(NeverDone()), w, r.world)
         == BilledBetween(GreedyBilling(NeverDone()), w, t.world) + Round6(o.cost)
  {
    GreedyBillingIsHonest(NeverDone());
    UnreportedOrder(budget, t, o);
    OrderBilled(NeverDone(), GreedyBilling(NeverDone()), budget, t, o);
    CallsSnoc(budget, t.calls, Call(o.cost, Err(TimedOut)));
  }

  /** `n` times `x`. */
  function Multiple(n: nat, x: real): real { if n == 0 then 0.0 else Multiple(n - 1, x) + x }

  lemma {:induction false} MultipleIsProduct(n: nat, x: real)
    ensures Multiple(n, x) == n as real * x
  {
    if n > 0 {
      MultipleIsProduct(n - 1, x);
      assert n as real * x == (n - 1) as real * x + x;
    }
  }

  lemma {:induction false} UnreportedCopies(w: World, budget: real, o: Order, n: nat)
    requires ValidArgs(Priced(o.args, o.cost)) && o.cost <= budget
    ensures var t := TabAfter(NeverDone(), budget, w, Copies(o, n));
      && Spent(budget, t.calls) == 0.0
      && BilledBetween(GreedyBilling(NeverDone()), w, t.world) == Multiple(n, Round6(o.cost))
  {
    if n > 0 {
      UnreportedCopies(w, budget, o, n - 1);
      OneCopyMore(w, budget, o, n);
      UnreportedOnce(w, budget, TabAfter(NeverDone(), budget, w, Copies(o, n - 1)), o);
    }
  }

  /** Charges that no receipt reports exhaust any budget unseen: against this gateway the wallet lets
      one and the same call through as often as it is asked, each is charged, and nothing is
      recorded. */
  lemma UnreportedCharges(w: World, budget: real, o: Order, n: nat)
    requires ValidArgs(Priced(o.args, o.cost)) && o.cost <= budget
    ensures HonestBilling(NeverDone(), GreedyBilling(NeverDone()))
    ensures var t := TabAfter(NeverDone(), budget, w, Copies(o, n));
      && Spent(budget, t.calls) == 0.0
      && BilledBetween(GreedyBilling(NeverDone()), w, t.world) == Multiple(n, Round6(o.cost))
  {
    GreedyBillingIsHonest(NeverDone());
    UnreportedCopies(w, budget, o, n);
  }
}
