/** First-expiring-first over many consumptions: it pays for every sequence of requests that can be paid for at all. */
module CreditSchedule {
  import opened Wrappers
  import opened Sums
  import opened CreditLedger
  import opened CreditConsumption

  /** What happens to the credits of one user: a request, listed in some expiry order and paid in another way by
      somebody else, or a new grant. */
  datatype Step =
    | Spend(now: int, credits: int, order: seq<nat>, other: seq<int>)
    | Gain(now: int, grant: Credit)

  ghost predicate NonNegative(rows: seq<Credit>) {
    forall i :: 0 <= i < |rows| ==> rows[i].remainingCredits >= 0
  }

  /** The requests can be paid for, each in the way it says, at instants that do not go back. */
  ghost predicate OtherWayPays(rows: seq<Credit>, user: nat, last: int, steps: seq<Step>)
    decreases |steps|
  {
    steps == [] ||
    (last <= steps[0].now &&
     match steps[0]
     case Spend(now, credits, _, other) =>
       credits > 0 && IsTake(rows, other, user, credits, now)
         && OtherWayPays(Reduced(rows, other), user, now, steps[1..])
     case Gain(now, grant) => grant.remainingCredits >= 0 && OtherWayPays(rows + [grant], user, now, steps[1..]))
  }

  /** The table after first-expiring-first paid for a request, without the limit on touched grants. */
  function AfterSpend(rows: seq<Credit>, user: nat, credits: int, now: int, order: seq<nat>): seq<Credit>
    requires forall k :: 0 <= k < |order| ==> order[k] < |rows|
  {
    AfterConsume(rows, user, credits, Taken(rows, user, credits, now, order))
  }

  /** Every request meets the table in some expiry order. */
  ghost predicate IsListed(rows: seq<Credit>, user: nat, steps: seq<Step>)
    decreases |steps|
  {
    steps == [] ||
    match steps[0]
    case Spend(now, credits, order, _) =>
      IsExpiryOrder(rows, order) && IsListed(AfterSpend(rows, user, credits, now, order), user, steps[1..])
    case Gain(_, grant) => IsListed(rows + [grant], user, steps[1..])
  }

  /** The balance covers every request when each is paid first-expiring-first. */
  ghost predicate FifoPays(rows: seq<Credit>, user: nat, steps: seq<Step>)
    requires IsListed(rows, user, steps)
    decreases |steps|
  {
    steps == [] ||
    match steps[0]
    case Spend(now, credits, order, _) =>
      IsCovered(rows, user, credits, now) && FifoPays(AfterSpend(rows, user, credits, now, order), user, steps[1..])
    case Gain(_, grant) => FifoPays(rows + [grant], user, steps[1..])
  }

  /** From an instant on the first table always has at least the unexpired balance of the second. */
  ghost predicate Dominates(rows: seq<Credit>, others: seq<Credit>, user: nat, last: int) {
    forall t :: t >= last ==> Balance(rows, user, t) >= Balance(others, user, t)
  }

  lemma GainKeepsDominance(rows: seq<Credit>, others: seq<Credit>, user: nat, last: int, now: int, grant: Credit)
    requires Dominates(rows, others, user, last) && last <= now
    ensures Dominates(rows + [grant], others + [grant], user, now)
  {
    hide Balance, IsEligible;
    forall t | t >= now ensures Balance(rows + [grant], user, t) >= Balance(others + [grant], user, t) {
      BalanceOfOneMore(rows, grant, user, t);
      BalanceOfOneMore(others, grant, user, t);
    }
  }

  /** Whoever can take an amount has it. */
  lemma TakeIsCovered(rows: seq<Credit>, take: seq<int>, user: nat, credits: int, now: int)
    requires IsTake(rows, take, user, credits, now) && credits > 0
    ensures |take| == |rows| && IsCovered(rows, user, credits, now)
  {
    SumMonotone(take, EligibleAmounts(rows, user, now));
  }

  lemma ReducedNonNegative(rows: seq<Credit>, take: seq<int>, user: nat, credits: int, now: int)
    requires IsTake(rows, take, user, credits, now) && NonNegative(rows)
    ensures NonNegative(Reduced(rows, take))
  {
  }

  lemma SpendNonNegative(rows: seq<Credit>, user: nat, credits: int, now: int, order: seq<nat>)
    requires IsExpiryOrder(rows, order) && IsCovered(rows, user, credits, now) && NonNegative(rows)
    ensures forall k :: 0 <= k < |order| ==> order[k] < |rows|
    ensures NonNegative(AfterSpend(rows, user, credits, now, order))
  {
    hide Taken, IsCovered, IsExpiryOrder, IsTake, Shifted;
    ExpiryOrderInTable(rows, order);
    var items := Taken(rows, user, credits, now, order);
    TakenIsTake(rows, user, credits, now, order);
    ReducedNonNegative(rows, TakenAmounts(rows, items), user, credits, now);
  }

  lemma SpendKeepsDominance(
    rows: seq<Credit>, others: seq<Credit>, user: nat, last: int, now: int, credits: int, order: seq<nat>,
      other: seq<int>)
    requires NonNegative(rows) && NonNegative(others) && Dominates(rows, others, user, last) && last <= now
    requires IsExpiryOrder(rows, order) && credits > 0 && IsTake(others, other, user, credits, now)
    ensures IsCovered(rows, user, credits, now)
    ensures forall k :: 0 <= k < |order| ==> order[k] < |rows|
    ensures Dominates(AfterSpend(rows, user, credits, now, order), Reduced(others, other), user, now)
  {
    hide Balance, IsExpiryOrder, IsTake, Taken, Shifted, Reduced, NonNegative;
    ExpiryOrderInTable(rows, order);
    TakeIsCovered(others, other, user, credits, now);
    var items := Taken(rows, user, credits, now, order);
    NonNegativeRows(rows);
    NonNegativeRows(others);
    forall t | t >= now
      ensures Balance(AfterSpend(rows, user, credits, now, order), user, t) >= Balance(Reduced(others, other), user, t)
    {
      RecordHoldsNoBalance(Shifted(rows, items, -1), ConsumeRow(user, credits, items), user, t);
      TakenLeaves(rows, user, credits, now, order, t);
      TakeLeavesAtMost(others, user, credits, now, other, t);
    }
  }

  lemma NonNegativeRows(rows: seq<Credit>)
    requires NonNegative(rows)
    ensures forall i :: 0 <= i < |rows| ==> rows[i].remainingCredits >= 0
  {
  }

  lemma {:induction false} DominatingFifoPays(rows: seq<Credit>, others: seq<Credit>, user: nat, last: int,
    steps: seq<Step>)
    requires NonNegative(rows) && NonNegative(others) && Dominates(rows, others, user, last)
    requires IsListed(rows, user, steps) && OtherWayPays(others, user, last, steps)
    ensures FifoPays(rows, user, steps)
    decreases |steps|
  {
    hide Dominates, IsExpiryOrder, IsTake, AfterSpend, Reduced, IsCovered;
    if steps != [] {
      match steps[0]
      case Spend(now, credits, order, other) =>
        TakeIsCovered(others, other, user, credits, now);
        SpendKeepsDominance(rows, others, user, last, now, credits, order, other);
        SpendNonNegative(rows, user, credits, now, order);
        ReducedNonNegative(others, other, user, credits, now);
        DominatingFifoPays(AfterSpend(rows, user, credits, now, order), Reduced(others, other), user, now, steps[1..]);
      case Gain(now, grant) =>
        GainKeepsDominance(rows, others, user, last, now, grant);
        DominatingFifoPays(rows + [grant], others + [grant], user, now, steps[1..]);
    }
  }

  /** Whenever a sequence of requests, with grants arriving in between, can be paid for in any way at all, it can be
      paid for first-expiring-first: the balance covers every request. */
  lemma FifoPaysWheneverPossible(rows: seq<Credit>, user: nat, start: int, steps: seq<Step>)
    requires NonNegative(rows) && IsListed(rows, user, steps) && OtherWayPays(rows, user, start, steps)
    ensures FifoPays(rows, user, steps)
  {
    hide NonNegative, IsListed, OtherWayPays, FifoPays;
    DominatingFifoPays(rows, rows, user, start, steps);
  }

  /** A request that the balance covers is refused exactly when it would touch more than nine grants. */
  lemma CoveredFailsExactly(rows: seq<Credit>, user: nat, credits: int, now: int, order: seq<nat>)
    requires IsExpiryOrder(rows, order) && IsCovered(rows, user, credits, now)
    ensures forall k :: 0 <= k < |order| ==> order[k] < |rows|
    ensures Consumption(rows, user, credits, now, order)
         == if |Taken(rows, user, credits, now, order)| > MAX_BATCH_NO - 1 then Err
           else Ok(Taken(rows, user, credits, now, order))
  {
    hide Fifo, Balance, IsEligible, IsExpiryOrder;
    ExpiryOrderInTable(rows, order);
    TakenIsExact(rows, user, credits, now, order);
  }
}
