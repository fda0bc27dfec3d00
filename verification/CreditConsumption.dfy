/** What one consumption takes: exactly the amount, first-expiring-first, in the best order there is. */
module CreditConsumption {
  import opened Wrappers
  import opened Sums
  import opened CreditLedger

  // ----- a consumption is exact -----

  /** A consumption succeeds exactly when the first nine eligible grants cover it. */
  lemma ConsumptionSucceedsExactly(rows: seq<Credit>, user: nat, credits: int, now: int, order: seq<nat>)
    requires IsExpiryOrder(rows, order) && credits > 0
    ensures var ids := Eligible(rows, order, user, now);
      var nine := ids[..if |ids| < MAX_BATCH_NO - 1 then |ids| else MAX_BATCH_NO - 1];
      Consumption(rows, user, credits, now, order).Ok? <==> SumRemaining(rows, nine) >= credits
  {
    hide Fifo, Balance, IsEligible, SumConsumed, IsExpiryOrder, IsGreedy, SumRemaining, Eligible;
    ExpiryOrderInTable(rows, order);
    var ids := Eligible(rows, order, user, now);
    var m := if |ids| < MAX_BATCH_NO - 1 then |ids| else MAX_BATCH_NO - 1;
    EligibleStocked(rows, order, user, now);
    BalanceOfEligible(rows, order, user, now);
    FifoTotal(rows, ids, credits, 1);
    FifoTotal(rows, ids[..m], credits, 1);
    FifoPrefix(rows, ids, m, credits, 1);
    FifoIsGreedy(rows, ids, credits, 1);
    SumRemainingSplit(rows, ids, m);
    StockedSumPositive(rows, ids[m..]);
    var all := Fifo(rows, ids, credits, 1);
    GreedyWithin(rows, ids, all);
    NothingRemains(rows);
    if |all| > m {
      FifoOverrun(rows, ids, credits, 1, m);
    }
  }

  lemma GreedyWithin(rows: seq<Credit>, ids: seq<nat>, items: seq<ConsumedItem>)
    requires IsGreedy(rows, ids, items)
    ensures |items| <= |ids|
  {
  }

  lemma NothingRemains(rows: seq<Credit>)
    ensures SumRemaining(rows, []) == 0
  {
  }

  lemma EligibleStocked(rows: seq<Credit>, order: seq<nat>, user: nat, now: int)
    requires IsExpiryOrder(rows, order)
    ensures IsStocked(rows, Eligible(rows, order, user, now))
  {
  }

  lemma {:induction false} SumRemainingSplit(rows: seq<Credit>, ids: seq<nat>, m: nat)
    requires m <= |ids| && forall k :: 0 <= k < |ids| ==> ids[k] < |rows|
    ensures SumRemaining(rows, ids) == SumRemaining(rows, ids[..m]) + SumRemaining(rows, ids[m..])
  {
    if m == |ids| {
      assert ids[..m] == ids;
    } else {
      var n := |ids| - 1;
      SumRemainingSplit(rows, ids[..n], m);
      assert ids[..n][..m] == ids[..m] && ids[m..][..n - m] == ids[..n][m..];
    }
  }

  /** Touching more than `m` grants means the first `m` do not cover the need. */
  lemma {:induction false} FifoOverrun(rows: seq<Credit>, ids: seq<nat>, need: int, batchNo: nat, m: nat)
    requires IsStocked(rows, ids) && m < |Fifo(rows, ids, need, batchNo)| <= |ids|
    ensures SumRemaining(rows, ids[..m]) < need
    decreases m
  {
    if m > 0 {
      var take := Min(need, rows[ids[0]].remainingCredits);
      FifoOverrun(rows, ids[1..], need - take, batchNo + 1, m - 1);
      SumRemainingCons(rows, ids[..m]);
      assert ids[..m][1..] == ids[1..][..m - 1];
    }
  }

  /** What taking an amount from the eligible grants, first to last, records. */
  function Taken(rows: seq<Credit>, user: nat, credits: int, now: int, order: seq<nat>): seq<ConsumedItem>
    requires forall k :: 0 <= k < |order| ==> order[k] < |rows|
  {
    Fifo(rows, Eligible(rows, order, user, now), credits, 1)
  }

  predicate IsCovered(rows: seq<Credit>, user: nat, credits: int, now: int) {
    0 < credits <= Balance(rows, user, now)
  }

  /** A consumption that succeeds is covered by the balance and records what is taken. */
  lemma ConsumptionIsTaken(rows: seq<Credit>, user: nat, credits: int, now: int, order: seq<nat>)
    requires IsExpiryOrder(rows, order) && credits > 0 && Consumption(rows, user, credits, now, order).Ok?
    ensures IsCovered(rows, user, credits, now)
    ensures Consumption(rows, user, credits, now, order).value == Taken(rows, user, credits, now, order)
    ensures |Taken(rows, user, credits, now, order)| < MAX_BATCH_NO
  {
    hide Fifo, Eligible, Balance;
  }

  /** What is taken sums to the amount, names the first eligible grants in order, drains all of them but the
      last, and nothing else in the table changes. */
  lemma TakenIsExact(rows: seq<Credit>, user: nat, credits: int, now: int, order: seq<nat>)
    requires IsExpiryOrder(rows, order) && IsCovered(rows, user, credits, now)
    ensures var items := Taken(rows, user, credits, now, order);
      var ids := Eligible(rows, order, user, now);
      && SumConsumed(items) == credits && 1 <= |items|
      && IsGreedy(rows, ids, items)
      && (forall k :: 0 <= k < |items| ==> TakenFrom(items, ids[k]) == items[k].creditsConsumed)
      && (forall i: nat :: i < |rows| && i !in ids[..|items|] ==>
            TakenFrom(items, i) == 0 && Shifted(rows, items, -1)[i] == rows[i])
  {
    hide Fifo, Balance, IsEligible, IsExpiryOrder, IsQueue, IsGreedy, TakenFrom, SumConsumed, SumRemaining, Shifted;
    ExpiryOrderInTable(rows, order);
    var ids := Eligible(rows, order, user, now);
    var items := Taken(rows, user, credits, now, order);
    NothingConsumed();
    EligibleStocked(rows, order, user, now);
    BalanceOfEligible(rows, order, user, now);
    FifoTotal(rows, ids, credits, 1);
    FifoIsGreedy(rows, ids, credits, 1);
    ExpiryOrderIsQueue(rows, order);
    EligibleQueue(rows, order, user, now);
    QueueIsDistinct(rows, ids);
    GreedyTakes(rows, ids, items);
  }

  /** The details of a successful consumption: they sum to the amount, name the first eligible grants in
      order, drain all of them but the last, and nothing else in the table changes. */
  lemma ConsumptionIsExact(rows: seq<Credit>, user: nat, credits: int, now: int, order: seq<nat>)
    requires IsExpiryOrder(rows, order) && credits > 0 && Consumption(rows, user, credits, now, order).Ok?
    ensures var items := Consumption(rows, user, credits, now, order).value;
      var ids := Eligible(rows, order, user, now);
      && SumConsumed(items) == credits && 1 <= |items| < MAX_BATCH_NO
      && IsGreedy(rows, ids, items)
      && (forall k :: 0 <= k < |items| ==> TakenFrom(items, ids[k]) == items[k].creditsConsumed)
      && (forall i: nat :: i < |rows| && i !in ids[..|items|] ==>
            TakenFrom(items, i) == 0 && Shifted(rows, items, -1)[i] == rows[i])
  {
    hide Consumption, Eligible, Taken, IsGreedy, IsExpiryOrder, TakenFrom, SumConsumed, Shifted;
    ExpiryOrderInTable(rows, order);
    ConsumptionIsTaken(rows, user, credits, now, order);
    TakenIsExact(rows, user, credits, now, order);
  }

  lemma NothingConsumed()
    ensures SumConsumed([]) == 0
  {
  }

  lemma QueueIsDistinct(rows: seq<Credit>, ids: seq<nat>)
    requires IsQueue(rows, ids)
    ensures forall j, k :: 0 <= j < k < |ids| ==> ids[j] != ids[k]
  {
  }

  /** What greedy items over distinct grants take from each row. */
  lemma GreedyTakes(rows: seq<Credit>, ids: seq<nat>, items: seq<ConsumedItem>)
    requires IsGreedy(rows, ids, items) && forall j, k :: 0 <= j < k < |ids| ==> ids[j] != ids[k]
    ensures forall k :: 0 <= k < |items| ==> TakenFrom(items, ids[k]) == items[k].creditsConsumed
    ensures forall i: nat :: i < |rows| && i !in ids[..|items|] ==>
      TakenFrom(items, i) == 0 && Shifted(rows, items, -1)[i] == rows[i]
  {
    hide TakenFrom, Shifted;
    forall k | 0 <= k < |items|
      ensures TakenFrom(items, ids[k]) == items[k].creditsConsumed
    {
      TakenOnce(items, k);
    }
    forall i: nat | i < |rows| && i !in ids[..|items|]
      ensures TakenFrom(items, i) == 0 && Shifted(rows, items, -1)[i] == rows[i]
    {
      assert forall k :: 0 <= k < |items| ==> items[k].creditId == ids[..|items|][k];
      TakenFromAbsent(items, i);
    }
  }

  lemma TakenOnce(items: seq<ConsumedItem>, k: nat)
    requires k < |items| && items[k].creditsConsumed > 0
    requires forall j :: 0 <= j < |items| && j != k ==> items[j].creditId != items[k].creditId
    ensures TakenFrom(items, items[k].creditId) == items[k].creditsConsumed
  {
    var id := items[k].creditId;
    assert items == items[..k] + [items[k]] + items[k + 1..];
    TakenFromConcat(items[..k] + [items[k]], items[k + 1..], id);
    TakenFromSnoc(items[..k], items[k], id);
    TakenFromAbsent(items[..k], id);
    TakenFromAbsent(items[k + 1..], id);
  }

  // ----- first-in-first-out by expiry is optimal -----

  /** The amounts of the user's active grants that have not expired. */
  function OpenAmounts(rows: seq<Credit>, amounts: seq<int>, user: nat, now: int): (r: seq<int>)
    requires |amounts| == |rows|
    ensures |r| == |rows|
    ensures forall i :: 0 <= i < |r| ==> r[i] == if IsOpenGrant(rows[i], user, now) then amounts[i] else 0
  {
    seq(|rows|, i requires 0 <= i < |rows| => if IsOpenGrant(rows[i], user, now) then amounts[i] else 0)
  }

  /** Some way of taking the same amount from the same grants. */
  ghost predicate IsTake(rows: seq<Credit>, take: seq<int>, user: nat, credits: int, now: int) {
    && |take| == |rows| && Sum(take) == credits
    && forall i :: 0 <= i < |rows| ==>
      if IsEligible(rows[i], user, now) then 0 <= take[i] <= rows[i].remainingCredits else take[i] == 0
  }

  function Reduced(rows: seq<Credit>, take: seq<int>): (r: seq<Credit>)
    requires |take| == |rows|
    ensures |r| == |rows|
    ensures forall i :: 0 <= i < |r| ==> r[i] == rows[i].(remainingCredits := rows[i].remainingCredits - take[i])
  {
    seq(|rows|, i requires 0 <= i < |rows| => rows[i].(remainingCredits := rows[i].remainingCredits - take[i]))
  }

  function TakenAmounts(rows: seq<Credit>, items: seq<ConsumedItem>): (r: seq<int>)
    ensures |r| == |rows| && forall i :: 0 <= i < |r| ==> r[i] == TakenFrom(items, i)
  {
    seq(|rows|, i requires 0 <= i < |rows| => TakenFrom(items, i) as int)
  }

  lemma {:induction false} TakenAmountsSum(rows: seq<Credit>, items: seq<ConsumedItem>)
    requires forall k :: 0 <= k < |items| ==> items[k].creditId < |rows| && items[k].creditsConsumed > 0
    ensures Sum(TakenAmounts(rows, items)) == SumConsumed(items)
  {
    if items == [] {
      SumZeros(TakenAmounts(rows, []));
    } else {
      var n := |items| - 1;
      var item, before := items[n], TakenAmounts(rows, items[..n]);
      TakenAmountsSum(rows, items[..n]);
      assert TakenAmounts(rows, items) == before[item.creditId := before[item.creditId] + item.creditsConsumed];
      SumUpdate(before, item.creditId, before[item.creditId] + item.creditsConsumed);
    }
  }

  lemma TakenIsTake(rows: seq<Credit>, user: nat, credits: int, now: int, order: seq<nat>)
    requires IsExpiryOrder(rows, order) && IsCovered(rows, user, credits, now)
    ensures var items := Taken(rows, user, credits, now, order);
      && IsTake(rows, TakenAmounts(rows, items), user, credits, now)
      && Reduced(rows, TakenAmounts(rows, items)) == Shifted(rows, items, -1)
  {
    hide Taken, IsCovered, IsExpiryOrder, IsEligible, SumConsumed, TakenFrom, Eligible, IsGreedy, Sum, Shifted, Reduced;
    ExpiryOrderInTable(rows, order);
    var items, ids := Taken(rows, user, credits, now, order), Eligible(rows, order, user, now);
    TakenIsExact(rows, user, credits, now, order);
    GreedyItems(rows, ids, items);
    TakenAmountsSum(rows, items);
    ReducedIsShifted(rows, items);
    forall i: nat | i < |rows|
      ensures if IsEligible(rows[i], user, now) then 0 <= TakenFrom(items, i) <= rows[i].remainingCredits
              else TakenFrom(items, i) == 0
    {
      TakenOfRow(rows, ids, items, user, now, i);
    }
  }

  lemma GreedyItems(rows: seq<Credit>, ids: seq<nat>, items: seq<ConsumedItem>)
    requires IsGreedy(rows, ids, items)
    ensures forall k :: 0 <= k < |items| ==> items[k].creditId < |rows| && items[k].creditsConsumed > 0
  {
  }

  lemma ReducedIsShifted(rows: seq<Credit>, items: seq<ConsumedItem>)
    ensures Reduced(rows, TakenAmounts(rows, items)) == Shifted(rows, items, -1)
  {
    hide TakenFrom;
  }

  lemma TakenOfRow(rows: seq<Credit>, ids: seq<nat>, items: seq<ConsumedItem>, user: nat, now: int, i: nat)
    requires i < |rows| && IsGreedy(rows, ids, items)
    requires forall k :: 0 <= k < |ids| ==> ids[k] < |rows| && IsEligible(rows[ids[k]], user, now)
    requires forall k :: 0 <= k < |items| ==> TakenFrom(items, ids[k]) == items[k].creditsConsumed
    requires i !in ids[..|items|] ==> TakenFrom(items, i) == 0
    ensures if IsEligible(rows[i], user, now) then 0 <= TakenFrom(items, i) <= rows[i].remainingCredits
            else TakenFrom(items, i) == 0
  {
    hide IsEligible, TakenFrom;
    if i in ids[..|items|] {
      var k :| 0 <= k < |items| && ids[..|items|][k] == i;
      assert ids[k] == i;
    } else {
      EligibleHasSome(rows, i, user, now);
    }
  }

  lemma EligibleHasSome(rows: seq<Credit>, i: nat, user: nat, now: int)
    requires i < |rows|
    ensures IsEligible(rows[i], user, now) ==> rows[i].remainingCredits > 0
  {
  }

  lemma EarlierInQueue(rows: seq<Credit>, ids: seq<nat>, p: nat, q: nat)
    requires IsQueue(rows, ids) && p < |ids| && q < |ids|
    requires !ExpiresNoLater(rows[ids[q]].expiresAt, rows[ids[p]].expiresAt)
    ensures p < q
  {
  }

  lemma TouchedPosition(ids: seq<nat>, n: nat, j: nat) returns (q: nat)
    requires n <= |ids| && j in ids[..n]
    ensures q < n && ids[q] == j
  {
    q :| 0 <= q < n && ids[..n][q] == j;
  }

  lemma EarlierTakenFirst(rows: seq<Credit>, user: nat, credits: int, now: int, order: seq<nat>, i: nat, j: nat)
    requires IsExpiryOrder(rows, order) && IsCovered(rows, user, credits, now)
    requires i < |rows| && j < |rows| && IsEligible(rows[i], user, now) && IsEligible(rows[j], user, now)
    requires !ExpiresNoLater(rows[j].expiresAt, rows[i].expiresAt)
    requires TakenFrom(Taken(rows, user, credits, now, order), j) > 0
    ensures TakenFrom(Taken(rows, user, credits, now, order), i) == rows[i].remainingCredits
  {
    hide Taken, IsCovered, IsExpiryOrder, IsEligible, SumConsumed, IsQueue, TakenFrom, ExpiresNoLater;
    ExpiryOrderIsQueue(rows, order);
    var items, ids := Taken(rows, user, credits, now, order), Eligible(rows, order, user, now);
    TakenIsExact(rows, user, credits, now, order);
    EligibleQueue(rows, order, user, now);
    ExpiryOrderHas(rows, order, i);
    EligibleComplete(rows, order, user, now, i);
    var p :| 0 <= p < |ids| && ids[p] == i;
    var q := TouchedPosition(ids, |items|, j);
    EarlierInQueue(rows, ids, p, q);
  }

  /** A grant is only touched when every eligible grant that expires before it is drained. */
  lemma EarlierGrantsDrained(rows: seq<Credit>, user: nat, credits: int, now: int, order: seq<nat>, i: nat, j: nat)
    requires IsExpiryOrder(rows, order) && credits > 0 && Consumption(rows, user, credits, now, order).Ok?
    requires i < |rows| && j < |rows| && IsEligible(rows[i], user, now) && IsEligible(rows[j], user, now)
    requires !ExpiresNoLater(rows[j].expiresAt, rows[i].expiresAt)
    requires TakenFrom(Consumption(rows, user, credits, now, order).value, j) > 0
    ensures TakenFrom(Consumption(rows, user, credits, now, order).value, i) == rows[i].remainingCredits
  {
    hide Consumption, Taken, IsCovered, IsEligible, TakenFrom, ExpiresNoLater;
    ConsumptionIsTaken(rows, user, credits, now, order);
    EarlierTakenFirst(rows, user, credits, now, order, i, j);
  }

  lemma ExpiryOrderHas(rows: seq<Credit>, order: seq<nat>, i: nat)
    requires IsExpiryOrder(rows, order) && i < |rows|
    ensures i in order
  {
  }

  /** After taking, the balance at a later instant is what was open then less what was taken of it. */
  lemma LaterBalance(rows: seq<Credit>, take: seq<int>, user: nat, credits: int, now: int, later: int)
    requires IsTake(rows, take, user, credits, now) && now <= later
    requires forall i :: 0 <= i < |rows| ==> rows[i].remainingCredits >= 0
    ensures Balance(Reduced(rows, take), user, later)
      == Balance(rows, user, later) - Sum(OpenAmounts(rows, take, user, later))
  {
    var after := EligibleAmounts(Reduced(rows, take), user, later);
    var open := OpenAmounts(rows, take, user, later);
    SumPointwise(after, open, EligibleAmounts(rows, user, later));
  }

  /** A take that drains all that expires until a later instant leaves all but the amount there. */
  lemma DrainingLeaves(rows: seq<Credit>, take: seq<int>, user: nat, credits: int, now: int, later: int)
    requires IsTake(rows, take, user, credits, now) && now <= later
    requires forall i :: 0 <= i < |rows| ==> rows[i].remainingCredits >= 0
    requires Closed(rows, take, user, later) == Expiring(rows, user, now, later)
    ensures Balance(Reduced(rows, take), user, later)
      == Min(Balance(rows, user, later), Balance(rows, user, now) - credits)
  {
    hide Balance, IsEligible, IsOpenGrant, IsUnexpired, Closed, Expiring, OpenAmounts, Reduced;
    LaterBalance(rows, take, user, credits, now, later);
    SplitByExpiry(rows, take, user, later);
    ExpiringBalance(rows, user, now, later);
    OnlyEligible(rows, take, user, credits, now, later);
    SumZeros(seq(|rows|, i => 0));
    SumMonotone(seq(|rows|, i => 0), OpenAmounts(rows, take, user, later));
  }

  /** A take from nothing but what expires until a later instant leaves that balance alone. */
  lemma SparingLeaves(rows: seq<Credit>, take: seq<int>, user: nat, credits: int, now: int, later: int)
    requires IsTake(rows, take, user, credits, now) && now <= later
    requires forall i :: 0 <= i < |rows| ==> rows[i].remainingCredits >= 0
    requires forall i :: 0 <= i < |rows| ==> OpenAmounts(rows, take, user, later)[i] == 0
    ensures Balance(Reduced(rows, take), user, later)
      == Min(Balance(rows, user, later), Balance(rows, user, now) - credits)
  {
    hide Balance, IsEligible, IsOpenGrant, IsUnexpired, Closed, Expiring, OpenAmounts, Reduced;
    LaterBalance(rows, take, user, credits, now, later);
    SplitByExpiry(rows, take, user, later);
    ExpiringBalance(rows, user, now, later);
    OnlyEligible(rows, take, user, credits, now, later);
    SumZeros(OpenAmounts(rows, take, user, later));
    SumMonotone(Closed(rows, take, user, later), Expiring(rows, user, now, later));
  }

  lemma DrainsOrSpares(rows: seq<Credit>, user: nat, credits: int, now: int, order: seq<nat>, later: int)
    requires IsExpiryOrder(rows, order) && IsCovered(rows, user, credits, now) && now <= later
    ensures forall k :: 0 <= k < |order| ==> order[k] < |rows|
    ensures var fifo := TakenAmounts(rows, Taken(rows, user, credits, now, order));
      || Closed(rows, fifo, user, later) == Expiring(rows, user, now, later)
      || forall i :: 0 <= i < |rows| ==> OpenAmounts(rows, fifo, user, later)[i] == 0
  {
    hide Taken, IsCovered, IsExpiryOrder, IsEligible, IsOpenGrant, IsUnexpired, TakenFrom, Sum;
    ExpiryOrderInTable(rows, order);
    var fifo := TakenAmounts(rows, Taken(rows, user, credits, now, order));
    TakenIsTake(rows, user, credits, now, order);
    if i :| 0 <= i < |rows| && IsEligible(rows[i], user, now) && !IsOpenGrant(rows[i], user, later)
            && fifo[i] < rows[i].remainingCredits {
      LaterUntouched(rows, user, credits, now, order, later, i);
    } else {
      assert Closed(rows, fifo, user, later) == Expiring(rows, user, now, later);
    }
  }

  /** What taking in order of expiry leaves at a later instant: all that expires until then goes first. */
  lemma TakenLeaves(rows: seq<Credit>, user: nat, credits: int, now: int, order: seq<nat>, later: int)
    requires IsExpiryOrder(rows, order) && IsCovered(rows, user, credits, now) && now <= later
    requires forall i :: 0 <= i < |rows| ==> rows[i].remainingCredits >= 0
    ensures Balance(Shifted(rows, Taken(rows, user, credits, now, order), -1), user, later)
         == Min(Balance(rows, user, later), Balance(rows, user, now) - credits)
  {
    hide Taken, IsCovered, IsExpiryOrder, Balance, IsTake, Closed, Expiring, OpenAmounts, Shifted, Reduced,
         TakenAmounts;
    ExpiryOrderInTable(rows, order);
    var fifo := TakenAmounts(rows, Taken(rows, user, credits, now, order));
    TakenIsTake(rows, user, credits, now, order);
    DrainsOrSpares(rows, user, credits, now, order, later);
    if Closed(rows, fifo, user, later) == Expiring(rows, user, now, later) {
      DrainingLeaves(rows, fifo, user, credits, now, later);
    } else {
      SparingLeaves(rows, fifo, user, credits, now, later);
    }
  }

  /** No way of taking leaves more at a later instant. */
  lemma TakeLeavesAtMost(rows: seq<Credit>, user: nat, credits: int, now: int, take: seq<int>, later: int)
    requires IsTake(rows, take, user, credits, now) && now <= later
    requires forall i :: 0 <= i < |rows| ==> rows[i].remainingCredits >= 0
    ensures Balance(Reduced(rows, take), user, later)
      <= Min(Balance(rows, user, later), Balance(rows, user, now) - credits)
  {
    hide Balance, IsEligible, IsOpenGrant, IsUnexpired;
    LaterBalance(rows, take, user, credits, now, later);
    SplitByExpiry(rows, take, user, later);
    ExpiringBalance(rows, user, now, later);
    OnlyEligible(rows, take, user, credits, now, later);
    SumMonotone(Closed(rows, take, user, later), Expiring(rows, user, now, later));
    SumZeros(seq(|rows|, i => 0));
    SumMonotone(seq(|rows|, i => 0), OpenAmounts(rows, take, user, later));
  }

  /** Taking in order of expiry leaves, at every later instant, at least the unexpired balance that any
      other way of taking the same amount from the same grants would leave. */
  lemma FifoIsOptimal(rows: seq<Credit>, user: nat, credits: int, now: int, order: seq<nat>, other: seq<int>,
    later: int)
    requires IsExpiryOrder(rows, order) && credits > 0 && Consumption(rows, user, credits, now, order).Ok?
    requires forall i :: 0 <= i < |rows| ==> rows[i].remainingCredits >= 0
    requires IsTake(rows, other, user, credits, now) && now <= later
    ensures Balance(AfterConsume(rows, user, credits, Consumption(rows, user, credits, now, order).value), user, later)
         >= Balance(Reduced(rows, other), user, later)
  {
    hide Consumption, Taken, IsCovered, IsExpiryOrder, Balance, IsEligible, IsTake;
    ExpiryOrderInTable(rows, order);
    ConsumptionIsTaken(rows, user, credits, now, order);
    var items := Taken(rows, user, credits, now, order);
    RecordHoldsNoBalance(Shifted(rows, items, -1), ConsumeRow(user, credits, items), user, later);
    TakenLeaves(rows, user, credits, now, order, later);
    TakeLeavesAtMost(rows, user, credits, now, other, later);
  }

  /** What the eligible grants hold that expire until a later instant. */
  function Expiring(rows: seq<Credit>, user: nat, now: int, later: int): (r: seq<int>)
    ensures |r| == |rows|
    ensures forall i :: 0 <= i < |r| ==>
      r[i] == if IsEligible(rows[i], user, now)
        && !IsOpenGrant(rows[i], user, later) then rows[i].remainingCredits else 0
  {
    seq(|rows|, i requires 0 <= i < |rows| =>
      if IsEligible(rows[i], user, now) && !IsOpenGrant(rows[i], user, later) then rows[i].remainingCredits else 0)
  }

  lemma ExpiringBalance(rows: seq<Credit>, user: nat, now: int, later: int)
    requires now <= later && forall i :: 0 <= i < |rows| ==> rows[i].remainingCredits >= 0
    ensures Balance(rows, user, now) == Balance(rows, user, later) + Sum(Expiring(rows, user, now, later))
  {
    SumPointwise(EligibleAmounts(rows, user, later), Expiring(rows, user, now, later),
      EligibleAmounts(rows, user, now));
  }

  lemma OnlyEligible(rows: seq<Credit>, take: seq<int>, user: nat, credits: int, now: int, later: int)
    requires IsTake(rows, take, user, credits, now) && now <= later
    requires forall i :: 0 <= i < |rows| ==> rows[i].remainingCredits >= 0
    ensures forall i :: 0 <= i < |rows| ==> 0 <= OpenAmounts(rows, take, user, later)[i]
    ensures forall i :: 0 <= i < |rows| ==>
      0 <= Closed(rows, take, user, later)[i] <= Expiring(rows, user, now, later)[i]
  {
  }

  lemma BalanceOfOneMore(rows: seq<Credit>, row: Credit, user: nat, t: int)
    ensures Balance(rows + [row], user, t)
      == Balance(rows, user, t) + (if IsEligible(row, user, t) then row.remainingCredits else 0)
  {
    var amount := if IsEligible(row, user, t) then row.remainingCredits else 0;
    assert EligibleAmounts(rows + [row], user, t) == EligibleAmounts(rows, user, t) + [amount];
    SumSnoc(EligibleAmounts(rows, user, t), amount);
  }

  lemma RecordHoldsNoBalance(rows: seq<Credit>, record: Credit, user: nat, now: int)
    requires record.transactionType == Consume
    ensures Balance(rows + [record], user, now) == Balance(rows, user, now)
  {
    BalanceOfOneMore(rows, record, user, now);
  }

  /** When a grant that expires in between still holds credits, nothing was taken from later ones. */
  lemma LaterUntouched(rows: seq<Credit>, user: nat, credits: int, now: int, order: seq<nat>, later: int, i: nat)
    requires IsExpiryOrder(rows, order) && IsCovered(rows, user, credits, now)
    requires i < |rows| && IsEligible(rows[i], user, now) && !IsOpenGrant(rows[i], user, later)
    requires TakenFrom(Taken(rows, user, credits, now, order), i) < rows[i].remainingCredits
    ensures forall j: nat :: j < |rows| && IsOpenGrant(rows[j], user, later) ==>
      TakenFrom(Taken(rows, user, credits, now, order), j) == 0
  {
    hide Taken, IsCovered, IsExpiryOrder;
    ExpiryOrderInTable(rows, order);
    var items := Taken(rows, user, credits, now, order);
    TakenIsTake(rows, user, credits, now, order);
    forall j: nat | j < |rows| && IsOpenGrant(rows[j], user, later)
      ensures TakenFrom(items, j) == 0
    {
      if TakenFrom(items, j) > 0 {
        assert TakenAmounts(rows, items)[j] > 0 && IsEligible(rows[j], user, now);
        EarlierTakenFirst(rows, user, credits, now, order, i, j);
        assert false;
      }
    }
  }

  /** What was taken from grants that are no longer open. */
  function Closed(rows: seq<Credit>, take: seq<int>, user: nat, later: int): (r: seq<int>)
    requires |take| == |rows|
    ensures |r| == |rows|
    ensures forall i :: 0 <= i < |r| ==> r[i] == if IsOpenGrant(rows[i], user, later) then 0 else take[i]
  {
    seq(|rows|, i requires 0 <= i < |rows| => if IsOpenGrant(rows[i], user, later) then 0 else take[i])
  }

  lemma SplitByExpiry(rows: seq<Credit>, take: seq<int>, user: nat, later: int)
    requires |take| == |rows|
    ensures Sum(take) == Sum(OpenAmounts(rows, take, user, later)) + Sum(Closed(rows, take, user, later))
  {
    SumPointwise(OpenAmounts(rows, take, user, later), Closed(rows, take, user, later), take);
  }

  // ----- ten small grants -----

  function OneCredit(): Credit {
    Credit(0, Grant, Active, 1, 1, None, [])
  }

  function OneCreditGrants(n: nat): (r: seq<Credit>)
    ensures |r| == n && forall i :: 0 <= i < n ==> r[i] == OneCredit()
  {
    seq(n, i requires 0 <= i < n => OneCredit())
  }

  function FirstNumbers(n: nat): (r: seq<nat>)
    ensures |r| == n && forall i :: 0 <= i < n ==> r[i] == i
  {
    seq(n, i requires 0 <= i < n => i)
  }

  lemma {:induction false} AllOneCredit(rows: seq<Credit>, ids: seq<nat>, now: int)
    requires forall k :: 0 <= k < |ids| ==> ids[k] < |rows| && rows[ids[k]] == OneCredit()
    ensures Eligible(rows, ids, 0, now) == ids && SumRemaining(rows, ids) == |ids|
  {
    if ids != [] {
      AllOneCredit(rows, ids[..|ids| - 1], now);
    }
  }

  lemma FirstNumbersPermute(n: nat)
    ensures IsPermutation(FirstNumbers(n), n)
  {
    forall i: nat | i < n ensures i in FirstNumbers(n) {
      assert FirstNumbers(n)[i] == i;
    }
  }

  /** Ten grants of one credit each do not pay for ten credits. */
  lemma TenSmallGrantsDoNotPay(now: int)
    ensures var rows, order := OneCreditGrants(10), FirstNumbers(10);
      IsExpiryOrder(rows, order) && Balance(rows, 0, now) == 10 && Consumption(rows, 0, 10, now, order) == Err
  {
    hide Balance, Eligible, SumRemaining, Consumption, OneCreditGrants, FirstNumbers;
    var rows, order := OneCreditGrants(10), FirstNumbers(10);
    FirstNumbersPermute(10);
    AllOneCredit(rows, order, now);
    AllOneCredit(rows, order[..9], now);
    BalanceOfEligible(rows, order, 0, now);
    ConsumptionSucceedsExactly(rows, 0, 10, now, order);
  }
}
