/** The budgeted wallet: a spend counter checked before and rounded to six places after every
    invoke.
 */
module Wallet {
  import opened Text
  import opened Money
  import opened Gateway
  import opened PythonClient

  /** One wallet call: the asserted cost, and what it came to. */
  datatype Call = Call(cost: real, outcome: Outcome)

  predicate Affordable(budget: real, spent: real, c: Call) { spent + c.cost <= budget }

  predicate Charged(budget: real, spent: real, c: Call) {
    Affordable(budget, spent, c) && c.outcome.Ok?
  }

  /** The recorded spend after one call: a refused or failed call leaves it alone. */
  function Step(budget: real, spent: real, c: Call): real {
    if Charged(budget, spent, c) then Round6(spent + c.outcome.value.charged) else spent
  }

  /** The recorded spend after a whole run of calls on a new wallet. */
  function Spent(budget: real, calls: seq<Call>): real {
    if calls == [] then 0.0 else Step(budget, Spent(budget, calls[..|calls| - 1]), calls[|calls| - 1])
  }

  function RemainingUsdc(budget: real, spent: real): real { Round6(budget - spent) }

  function Priced(a: InvokeArgs, cost: real): InvokeArgs { a.(cost := Some(Number(cost))) }

  /** A call that the budget does not cover is refused without a request; any other is the client's
      invoke. */
  function CallRun(env: Env, budget: real, spent: real, w: World, a: InvokeArgs, cost: real, uuid: string): Run {
    if spent + cost > budget then Run(Err(InsufficientFunds), w) else InvokeRun(env, w, Priced(a, cost), uuid)
  }

  class AgentWallet {
    const client: SynapseClient
    const budget: real
    var spent: real

    constructor (env: Env, budget: real)
      ensures this.budget == budget && spent == Spent(budget, [])
      ensures fresh(client) && client.env == env
    {
      this.client := new SynapseClient(env);
      this.budget := budget;
      spent := 0.0;
    }

    /** Refuses what the budget does not cover without sending anything; otherwise it is the
        client's own invoke, whose charge is recorded if it succeeds. */
    method Invoke(a: InvokeArgs, cost: real, uuid: string) returns (r: Outcome)
      modifies this, client
      ensures Run(r, client.State()) == CallRun(client.env, budget, old(spent), old(client.State()), a, cost, uuid)
      ensures spent == Step(budget, old(spent), Call(cost, r))
    {
      if spent + cost > budget {
        return Err(InsufficientFunds);
      }
      r := client.Invoke(Priced(a, cost), uuid);
      if r.Ok? {
        spent := Round6(spent + r.value.charged);
      }
    }
  }

  // ----- the budget -----

  /** A call is charged at most the price it asserted, as given or as sent. */
  predicate WithinPrice(c: Call) {
    c.outcome.Ok? ==> c.outcome.value.charged <= c.cost || c.outcome.value.charged <= Round6(c.cost)
  }

  predicate WithinCost(c: Call) {
    c.outcome.Ok? ==> c.outcome.value.charged <= c.cost
  }

  predicate AllWithinPrice(calls: seq<Call>) { forall i :: 0 <= i < |calls| ==> WithinPrice(calls[i]) }
  predicate AllWithinCost(calls: seq<Call>) { forall i :: 0 <= i < |calls| ==> WithinCost(calls[i]) }

  lemma {:induction false} SpentIsMicro(budget: real, calls: seq<Call>)
    ensures IsMicro(Spent(budget, calls))
  {
    if calls != [] {
      var before, c := Spent(budget, calls[..|calls| - 1]), calls[|calls| - 1];
      SpentIsMicro(budget, calls[..|calls| - 1]);
      if Charged(budget, before, c) {
        Round6IsNearest(before + c.outcome.value.charged);
      }
    }
  }

  /** Less than half of a millionth of the amount is no whole millionth. */
  predicate BelowHalf(x: real) {
    x * 1_000_000.0 - (x * 1_000_000.0).Floor as real < 0.5
  }

  /** The whole millionths of an amount. */
  function WholePart(x: real): real { (x * 1_000_000.0).Floor as real / 1_000_000.0 }

  lemma WholePartIsMicro(x: real)
    ensures IsMicro(WholePart(x)) && WholePart(x) <= x < WholePart(x) + 0.000001
  {
    WholeMillionths(WholePart(x), (x * 1_000_000.0).Floor);
  }

  /** What is left of such a budget rounds to what is left of its whole millionths. */
  lemma RestRoundsDown(budget: real, spent: real)
    requires BelowHalf(budget) && IsMicro(spent)
    ensures Round6(budget - spent) == WholePart(budget) - spent
  {
    var f, n := (budget * 1_000_000.0).Floor, (spent * 1_000_000.0).Floor;
    var y := (budget - spent) * 1_000_000.0;
    assert y == budget * 1_000_000.0 - n as real;
    assert y.Floor == f - n;
    assert RoundHalfEven(y) == f - n;
  }

  lemma ChargeFits(budget: real, spent: real, cost: real, charged: real)
    requires BelowHalf(budget) && IsMicro(spent) && spent + cost <= budget
    requires charged <= cost || charged <= Round6(cost)
    ensures Round6(spent + charged) <= WholePart(budget)
  {
    var whole := WholePart(budget);
    WholePartIsMicro(budget);
    Round6IsNearest(whole);
    if charged <= cost {
      WholeMillionths(0.0, 0);
      RestRoundsDown(budget, 0.0);
      Round6Monotone(spent + charged, budget);
    } else {
      RestRoundsDown(budget, spent);
      Round6Monotone(cost, budget - spent);
      Round6Monotone(spent + charged, whole);
    }
  }

  /** No run of calls records more than the whole millionths of such a budget. */
  lemma {:induction false} BudgetHolds(budget: real, calls: seq<Call>)
    requires 0.0 <= budget && BelowHalf(budget)
    requires AllWithinPrice(calls)
    ensures Spent(budget, calls) <= WholePart(budget) <= budget
  {
    WholePartIsMicro(budget);
    if calls != [] {
      var before, c := Spent(budget, calls[..|calls| - 1]), calls[|calls| - 1];
      BudgetHolds(budget, calls[..|calls| - 1]);
      SpentIsMicro(budget, calls[..|calls| - 1]);
      if Charged(budget, before, c) {
        ChargeFits(budget, before, c.cost, c.outcome.value.charged);
      }
    }
  }

  /** With a budget in whole millionths and no charge above the asserted price, no run of calls
      ever records more than the budget. */
  lemma NeverOverBudget(budget: real, calls: seq<Call>)
    requires 0.0 <= budget && IsMicro(budget)
    requires AllWithinPrice(calls)
    ensures Spent(budget, calls) <= budget
  {
    BudgetHolds(budget, calls);
  }

  function Pay(cost: real, charged: real): Call { Call(cost, Ok(Receipt("", "SUCCEEDED", charged))) }

  lemma SpentOnOne(budget: real, c: Call)
    ensures Spent(budget, [c]) == Step(budget, 0.0, c)
  {
    assert [c][..0] == [];
  }

  lemma SpentOnTwo(budget: real, c: Call, d: Call)
    ensures Spent(budget, [c, d]) == Step(budget, Step(budget, 0.0, c), d)
  {
    SpentOnOne(budget, c);
    assert [c, d][..1] == [c];
  }

  /** Half a millionth behind an even number of them becomes odd, and then is rounded up, when one
      millionth is paid, or paid back, first. */
  lemma TieOverrun(budget: real, first: real)
    requires first == 0.000001 || first == -0.000001
    requires !BelowHalf(budget) && Round6(budget) <= budget && first <= budget
    ensures Spent(budget, [Pay(first, first), Pay(budget - first, Round6(budget - first))]) > budget
  {
    var c, d := Pay(first, first), Pay(budget - first, Round6(budget - first));
    var f, n := (budget * 1_000_000.0).Floor, if first > 0.0 then 1 else -1;
    SpentOnTwo(budget, c, d);
    WholeMillionths(first, n);
    Round6IsNearest(first);
    var y := (budget - first) * 1_000_000.0;
    assert y == budget * 1_000_000.0 - n as real;
    assert f % 2 == 0 && y.Floor == f - n && RoundHalfEven(y) == f - n + 1;
    var sum := first + Round6(budget - first);
    assert sum * 1_000_000.0 == (f + 1) as real;
    WholeMillionths(sum, f + 1);
    Round6IsNearest(sum);
  }

  /** A run of calls, each within its price, that exceeds a budget with half a millionth or more. */
  function Overrun(budget: real): seq<Call> {
    if Round6(budget) > budget then [Pay(budget, budget)]
    else
      var first := if budget < 0.000001 then -0.000001 else 0.000001;
      [Pay(first, first), Pay(budget - first, Round6(budget - first))]
  }

  lemma OverrunExceeds(budget: real)
    requires 0.0 <= budget && !BelowHalf(budget)
    ensures AllWithinPrice(Overrun(budget))
    ensures Spent(budget, Overrun(budget)) > budget
  {
    if Round6(budget) > budget {
      SpentOnOne(budget, Pay(budget, budget));
    } else {
      TieOverrun(budget, if budget < 0.000001 then -0.000001 else 0.000001);
    }
  }

  /** The budgets that no run of calls can exceed, each charged at most the price it asserted as
      given or as sent, are exactly those with less than half a millionth behind the whole ones. */
  lemma BudgetHoldsExactly(budget: real)
    requires 0.0 <= budget
    ensures (forall calls :: AllWithinPrice(calls) ==> Spent(budget, calls) <= budget) <==> BelowHalf(budget)
  {
    if BelowHalf(budget) {
      forall calls | AllWithinPrice(calls)
        ensures Spent(budget, calls) <= budget
      {
        BudgetHolds(budget, calls);
      }
    } else {
      OverrunExceeds(budget);
    }
  }

  predicate NoneNegative(calls: seq<Call>) {
    forall i :: 0 <= i < |calls| ==>
      calls[i].cost >= 0.0 && (calls[i].outcome.Ok? ==> calls[i].outcome.value.charged >= 0.0)
  }

  lemma {:induction false} HalfAMillionthBuysNothing(calls: seq<Call>)
    requires AllWithinPrice(calls) && NoneNegative(calls)
    ensures Spent(0.0000005, calls) == 0.0
  {
    if calls != [] {
      var c := calls[|calls| - 1];
      HalfAMillionthBuysNothing(calls[..|calls| - 1]);
      if Charged(0.0000005, 0.0, c) && c.outcome.value.charged > 0.0 {
        if c.cost > 0.0 {
          Round6Positive(c.cost);
        }
        Round6Positive(c.outcome.value.charged);
      }
    }
  }

  lemma OverrunPays(budget: real)
    requires 0.0 <= budget && !BelowHalf(budget) && budget != 0.0000005
    ensures NoneNegative(Overrun(budget))
  {
    if Round6(budget) <= budget && budget >= 0.000001 {
      Round6Monotone(0.0, budget - 0.000001);
    }
  }

  /** When neither a cost nor a charge is negative, one more budget is safe: half a millionth. */
  lemma BudgetHoldsForPayments(budget: real)
    requires 0.0 <= budget
    ensures (forall calls :: AllWithinPrice(calls) && NoneNegative(calls) ==> Spent(budget, calls) <= budget)
       <==> BelowHalf(budget) || budget == 0.0000005
  {
    if BelowHalf(budget) || budget == 0.0000005 {
      forall calls | AllWithinPrice(calls) && NoneNegative(calls)
        ensures Spent(budget, calls) <= budget
      {
        if budget == 0.0000005 {
          HalfAMillionthBuysNothing(calls);
        } else {
          BudgetHolds(budget, calls);
        }
      }
    } else {
      OverrunExceeds(budget);
      OverrunPays(budget);
    }
  }

  lemma {:induction false} BudgetHoldsUnrounded(budget: real, calls: seq<Call>)
    requires 0.0 <= budget && Round6(budget) <= budget
    requires AllWithinCost(calls)
    ensures Spent(budget, calls) <= budget
  {
    if calls != [] {
      var before, c := Spent(budget, calls[..|calls| - 1]), calls[|calls| - 1];
      BudgetHoldsUnrounded(budget, calls[..|calls| - 1]);
      if Charged(budget, before, c) {
        Round6Monotone(before + c.outcome.value.charged, budget);
      }
    }
  }

  /** For charges up to the cost as given, the budgets that no run can exceed are exactly those
      that rounding does not raise. */
  lemma BudgetHoldsWithinCost(budget: real)
    requires 0.0 <= budget
    ensures (forall calls :: AllWithinCost(calls) ==> Spent(budget, calls) <= budget) <==> Round6(budget) <= budget
  {
    if Round6(budget) <= budget {
      forall calls | AllWithinCost(calls)
        ensures Spent(budget, calls) <= budget
      {
        BudgetHoldsUnrounded(budget, calls);
      }
    } else {
      var c := Pay(budget, budget);
      assert AllWithinCost([c]);
      SpentOnOne(budget, c);
    }
  }

  /** A budget that rounding does not raise and that is exceeded all the same: the second cost of
      one and a half millionths is sent, and charged, as two. */
  lemma RoundedCostOverruns()
    ensures var calls := [Pay(0.000001, 0.000001), Pay(0.0000015, 0.000002)];
      && Round6(0.0000025) <= 0.0000025
      && Round6(0.0000015) == 0.000002
      && AllWithinPrice(calls)
      && Spent(0.0000025, calls) == 0.000003
  {
    var first, second := Pay(0.000001, 0.000001), Pay(0.0000015, 0.000002);
    SpentOnTwo(0.0000025, first, second);
    WholeMillionths(0.000001, 1);
    Round6IsNearest(0.000001);
    WholeMillionths(0.000003, 3);
    Round6IsNearest(0.000003);
    assert RoundHalfEven(1.5) == 2;
    assert RoundHalfEven(2.5) == 2;
  }

  // ----- the recorded sum -----

  /** The charges of the calls that succeeded. */
  function TrueSum(budget: real, calls: seq<Call>): real {
    if calls == [] then 0.0
    else
      var front, c := calls[..|calls| - 1], calls[|calls| - 1];
      TrueSum(budget, front) + if Charged(budget, Spent(budget, front), c) then c.outcome.value.charged else 0.0
  }

  function Successes(budget: real, calls: seq<Call>): nat {
    if calls == [] then 0
    else
      var front, c := calls[..|calls| - 1], calls[|calls| - 1];
      Successes(budget, front) + if Charged(budget, Spent(budget, front), c) then 1 else 0
  }

  /** After `n` successful calls the record is off the true sum by at most `n` half millionths. */
  lemma {:induction false} RecordedSpendDrift(budget: real, calls: seq<Call>)
    ensures var n := Successes(budget, calls) as real;
      -0.0000005 * n <= Spent(budget, calls) - TrueSum(budget, calls) <= 0.0000005 * n
  {
    if calls != [] {
      var before, c := Spent(budget, calls[..|calls| - 1]), calls[|calls| - 1];
      RecordedSpendDrift(budget, calls[..|calls| - 1]);
      if Charged(budget, before, c) {
        Round6IsNearest(before + c.outcome.value.charged);
      }
    }
  }

  predicate AllMicroCharges(calls: seq<Call>) {
    forall i :: 0 <= i < |calls| && calls[i].outcome.Ok? ==> IsMicro(calls[i].outcome.value.charged)
  }

  lemma RemainingIsExact(budget: real, spent: real)
    requires IsMicro(budget) && IsMicro(spent)
    ensures spent + RemainingUsdc(budget, spent) == budget
  {
    MicroSum(budget, spent);
    Round6IsNearest(budget - spent);
  }

  /** With charges in whole millionths nothing is lost: the record is the true sum, and with such a
      budget too, spent and remaining add up to it. */
  lemma {:induction false} RecordedSpendExact(budget: real, calls: seq<Call>)
    requires AllMicroCharges(calls)
    ensures Spent(budget, calls) == TrueSum(budget, calls)
    ensures IsMicro(budget) ==>
      Spent(budget, calls) + RemainingUsdc(budget, Spent(budget, calls)) == budget
  {
    if calls != [] {
      var before, c := Spent(budget, calls[..|calls| - 1]), calls[|calls| - 1];
      RecordedSpendExact(budget, calls[..|calls| - 1]);
      SpentIsMicro(budget, calls[..|calls| - 1]);
      if Charged(budget, before, c) {
        assert IsMicro(c.outcome.value.charged);
        MicroSum(before, c.outcome.value.charged);
        Round6IsNearest(before + c.outcome.value.charged);
      }
    }
    if IsMicro(budget) {
      SpentIsMicro(budget, calls);
      RemainingIsExact(budget, Spent(budget, calls));
    }
  }
}
