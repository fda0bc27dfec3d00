/** What the credit functions write, stated on the rows of the tables as they stand: which grants a consumption
    takes from, every column of its record, and what a failed task gives back. */
module CreditMeaning {
  import opened Wrappers
  import opened Sums
  import opened CreditLedger
  import opened CreditConsumption
  import opened CreditProofs

  // ----- the balance -----

  /** An active grant of the user that holds something and has not expired: it still counts just before it
      expires, and no longer at that instant. */
  ghost predicate MayBeTaken(row: Credit, user: nat, now: int) {
    && row.userId == user && row.transactionType == Grant && row.status == Active
    && row.remainingCredits > 0
    && (row.expiresAt.Some? ==> now < row.expiresAt.value)
  }

  /** All that the user's grants hold. */
  ghost function Held(rows: seq<Credit>, user: nat, now: int): int {
    if rows == [] then 0
    else (if MayBeTaken(rows[0], user, now) then rows[0].remainingCredits else 0) + Held(rows[1..], user, now)
  }

  lemma EligibleExactly(row: Credit, user: nat, now: int)
    ensures IsEligible(row, user, now) <==> MayBeTaken(row, user, now)
  {
  }

  /** The balance is what the takeable grants of the user hold. */
  lemma {:induction false} BalanceExactly(rows: seq<Credit>, user: nat, now: int)
    ensures Balance(rows, user, now) == Held(rows, user, now)
  {
    hide IsEligible, MayBeTaken, Sum;
    if rows == [] {
      SumZeros(EligibleAmounts(rows, user, now));
    } else {
      var rest := rows[1..];
      EligibleExactly(rows[0], user, now);
      BalanceExactly(rest, user, now);
      var first := if IsEligible(rows[0], user, now) then rows[0].remainingCredits else 0;
      assert EligibleAmounts(rows, user, now) == [first] + EligibleAmounts(rest, user, now);
      SumCons(first, EligibleAmounts(rest, user, now));
    }
  }

  lemma SumCons(first: int, rest: seq<int>)
    ensures Sum([first] + rest) == first + Sum(rest)
  {
    SumConcat([first], rest);
    assert [first][..0] == [];
  }

  // ----- the queue -----

  /** The takeable grants of the user, once each, by expiry; grants that never expire come last. */
  ghost predicate IsQueueOf(queue: seq<nat>, rows: seq<Credit>, user: nat, now: int) {
    && (forall i: nat :: i in queue <==> i < |rows| && MayBeTaken(rows[i], user, now))
    && (forall j, k :: 0 <= j < k < |queue| ==> queue[j] != queue[k])
    && (forall k :: 0 <= k < |queue| ==> queue[k] < |rows|)
    && forall j, k :: 0 <= j < k < |queue| ==>
      rows[queue[k]].expiresAt == None
      || (rows[queue[j]].expiresAt.Some? && rows[queue[j]].expiresAt.value <= rows[queue[k]].expiresAt.value)
  }

  lemma QueueExactly(rows: seq<Credit>, order: seq<nat>, user: nat, now: int)
    requires IsExpiryOrder(rows, order)
    ensures IsQueueOf(Eligible(rows, order, user, now), rows, user, now)
  {
    hide Eligible, IsEligible, MayBeTaken, IsExpiryOrder;
    ExpiryOrderInTable(rows, order);
    ExpiryOrderIsQueue(rows, order);
    EligibleQueue(rows, order, user, now);
    var queue := Eligible(rows, order, user, now);
    forall i: nat
      ensures i in queue <==> i < |rows| && MayBeTaken(rows[i], user, now)
    {
      if i < |rows| {
        EligibleExactly(rows[i], user, now);
        OrderListsAll(rows, order, i);
        if IsEligible(rows[i], user, now) {
          EligibleComplete(rows, order, user, now, i);
        }
      }
      if i in queue {
        var k :| 0 <= k < |queue| && queue[k] == i;
        EligibleExactly(rows[i], user, now);
      }
    }
  }

  lemma OrderListsAll(rows: seq<Credit>, order: seq<nat>, i: nat)
    requires IsExpiryOrder(rows, order) && i < |rows|
    ensures i in order
  {
  }

  // ----- what a consumption takes -----

  /** What the first grants of the queue hold together. */
  ghost function HeldIn(rows: seq<Credit>, queue: seq<nat>): int
    requires forall k :: 0 <= k < |queue| ==> queue[k] < |rows|
  {
    if queue == [] then 0 else rows[queue[0]].remainingCredits + HeldIn(rows, queue[1..])
  }

  /** One recorded item: what was still needed, what this grant gave, and what it held before and after. */
  ghost predicate IsItem(item: ConsumedItem, rows: seq<Credit>, id: nat, need: int, batchNo: nat)
    requires id < |rows|
  {
    && item.creditId == id && item.expiresAt == rows[id].expiresAt && item.batchNo == batchNo
    && item.creditsToConsume == need && item.creditsBefore == rows[id].remainingCredits
    && item.creditsConsumed == (if need < rows[id].remainingCredits then need else rows[id].remainingCredits)
    && item.creditsAfter == rows[id].remainingCredits - item.creditsConsumed
  }

  /** The items take the amount from the queue, grant by grant, until it is paid. */
  ghost predicate Pays(items: seq<ConsumedItem>, rows: seq<Credit>, queue: seq<nat>, amount: int, batchNo: nat)
    requires forall k :: 0 <= k < |queue| ==> queue[k] < |rows|
    decreases |queue|
  {
    if amount <= 0 || queue == [] then items == []
    else
      && items != [] && IsItem(items[0], rows, queue[0], amount, batchNo)
      && Pays(items[1..], rows, queue[1..], amount - items[0].creditsConsumed, batchNo + 1)
  }

  lemma FifoFirst(rows: seq<Credit>, queue: seq<nat>, amount: int, batchNo: nat)
    requires (forall k :: 0 <= k < |queue| ==> queue[k] < |rows|) && amount > 0 && queue != []
    ensures var all, take := Fifo(rows, queue, amount, batchNo), Min(amount, rows[queue[0]].remainingCredits);
      && all != [] && IsItem(all[0], rows, queue[0], amount, batchNo) && all[0].creditsConsumed == take
      && all[1..] == Fifo(rows, queue[1..], amount - take, batchNo + 1)
  {
  }

  lemma ItemUnique(a: ConsumedItem, b: ConsumedItem, rows: seq<Credit>, id: nat, need: int, batchNo: nat)
    requires id < |rows| && IsItem(a, rows, id, need, batchNo)
    ensures IsItem(b, rows, id, need, batchNo) <==> a == b
  {
  }

  lemma {:induction false} PaysExactly(items: seq<ConsumedItem>, rows: seq<Credit>, queue: seq<nat>, amount: int,
    batchNo: nat)
    requires forall k :: 0 <= k < |queue| ==> queue[k] < |rows|
    ensures Fifo(rows, queue, amount, batchNo) == items <==> Pays(items, rows, queue, amount, batchNo)
    decreases |queue|
  {
    hide IsItem, Fifo;
    var all := Fifo(rows, queue, amount, batchNo);
    if amount <= 0 || queue == [] {
      FifoNothing(rows, queue, amount, batchNo);
    } else {
      FifoFirst(rows, queue, amount, batchNo);
      if items != [] {
        ItemUnique(all[0], items[0], rows, queue[0], amount, batchNo);
        PaysExactly(items[1..], rows, queue[1..], amount - all[0].creditsConsumed, batchNo + 1);
        assert items == [items[0]] + items[1..] && all == [all[0]] + all[1..];
      }
    }
  }

  lemma FifoNothing(rows: seq<Credit>, queue: seq<nat>, amount: int, batchNo: nat)
    requires (forall k :: 0 <= k < |queue| ==> queue[k] < |rows|) && (amount <= 0 || queue == [])
    ensures Fifo(rows, queue, amount, batchNo) == []
  {
  }

  lemma {:induction false} HeldInExactly(rows: seq<Credit>, queue: seq<nat>)
    requires forall k :: 0 <= k < |queue| ==> queue[k] < |rows|
    ensures SumRemaining(rows, queue) == HeldIn(rows, queue)
  {
    hide SumRemaining;
    if queue == [] {
      NothingRemains(rows);
    } else {
      SumRemainingCons(rows, queue);
      HeldInExactly(rows, queue[1..]);
    }
  }

  /** A consumption succeeds exactly when the first nine grants of the queue hold the amount; its record then lists
      what it took from each. */
  lemma ConsumptionExactly(rows: seq<Credit>, user: nat, credits: int, now: int, order: seq<nat>)
    returns (queue: seq<nat>)
    requires IsExpiryOrder(rows, order) && credits > 0
    ensures IsQueueOf(queue, rows, user, now)
    ensures var nine := queue[..if |queue| < 9 then |queue| else 9];
      Consumption(rows, user, credits, now, order).Ok? <==> HeldIn(rows, nine) >= credits
    ensures Consumption(rows, user, credits, now, order).Ok? ==>
      Pays(Consumption(rows, user, credits, now, order).value, rows, queue, credits, 1)
  {
    hide Eligible, IsEligible, Fifo, Balance, Pays, IsExpiryOrder, SumRemaining, HeldIn;
    ExpiryOrderInTable(rows, order);
    queue := Eligible(rows, order, user, now);
    QueueExactly(rows, order, user, now);
    ConsumptionSucceedsExactly(rows, user, credits, now, order);
    HeldInExactly(rows, queue[..if |queue| < 9 then |queue| else 9]);
    if Consumption(rows, user, credits, now, order).Ok? {
      PaysExactly(Consumption(rows, user, credits, now, order).value, rows, queue, credits, 1);
    }
  }

  // ----- what the tables hold afterwards -----

  /** What the items took from one grant. */
  ghost function TakenAway(items: seq<ConsumedItem>, id: nat): int {
    if items == [] then 0
    else
      (if items[0].creditId == id && items[0].creditsConsumed > 0 then items[0].creditsConsumed else 0)
      + TakenAway(items[1..], id)
  }

  lemma {:induction false} TakenExactly(items: seq<ConsumedItem>, id: nat)
    ensures TakenFrom(items, id) == TakenAway(items, id)
  {
    hide TakenFrom;
    if items == [] {
      NothingTaken(id);
    } else {
      TakenExactly(items[1..], id);
      assert items == [items[0]] + items[1..];
      TakenFromConcat([items[0]], items[1..], id);
      OneTaken(items[0], id);
    }
  }

  lemma NothingTaken(id: nat)
    ensures TakenFrom([], id) == 0
  {
  }

  lemma OneTaken(item: ConsumedItem, id: nat)
    ensures TakenFrom([item], id) == if item.creditId == id && item.creditsConsumed > 0 then item.creditsConsumed else 0
  {
    var nothing: seq<ConsumedItem> := [];
    assert nothing + [item] == [item];
    TakenFromSnoc(nothing, item, id);
  }

  /** Every grant holds less by what was taken from it, and the record is added behind the rows. */
  ghost predicate IsConsumed(rows: seq<Credit>, after: seq<Credit>, user: nat, credits: int, items: seq<ConsumedItem>) {
    && |after| == |rows| + 1
    && (forall i :: 0 <= i < |rows| ==>
          after[i] == rows[i].(remainingCredits := rows[i].remainingCredits - TakenAway(items, i)))
    && after[|rows|] == Credit(user, Consume, Active, -credits, 0, None, items)
  }

  lemma ConsumedExactly(rows: seq<Credit>, user: nat, credits: int, items: seq<ConsumedItem>)
    ensures IsConsumed(rows, AfterConsume(rows, user, credits, items), user, credits, items)
  {
    hide TakenFrom, TakenAway;
    forall i: nat | i < |rows|
      ensures TakenFrom(items, i) == TakenAway(items, i)
    {
      TakenExactly(items, i);
    }
  }

  /** A grant of something adds one full row, which expires after the given days if there are any. */
  lemma GrantExactly(s: Ledger, user: nat, credits: int, validDays: int, now: int)
    ensures Next(s, GrantCredits(user, credits, validDays, now))
         == if credits <= 0 then s
            else Ledger(s.rows + [Credit(user, Grant, Active, credits, credits,
                                         if validDays <= 0 then None else Some(now + validDays * 86_400_000), [])],
                        s.tasks)
  {
  }

  /** A task that costs nothing is added as it is; any other is added with the id of its consumption record, which
      is added with it, or not at all. */
  ghost predicate IsCreated(s: Ledger, after: Ledger, task: Task, now: int) {
    if task.costCredits == None || task.costCredits.value <= 0 then after == Ledger(s.rows, s.tasks + [task])
    else
      var cost := task.costCredits.value;
      exists queue ::
        && IsQueueOf(queue, s.rows, task.userId, now)
        && if HeldIn(s.rows, queue[..if |queue| < 9 then |queue| else 9]) < cost then after == s
           else
             && after.tasks == s.tasks + [Task(task.userId, task.costCredits, task.status, Some(|s.rows|))]
             && exists items ::
               Pays(items, s.rows, queue, cost, 1) && IsConsumed(s.rows, after.rows, task.userId, cost, items)
  }

  lemma CreateTaskExactly(s: Ledger, task: Task, now: int, order: seq<nat>)
    requires IsExpiryOrder(s.rows, order)
    ensures IsCreated(s, Next(s, CreateTask(task, now, order)), task, now)
  {
    hide IsExpiryOrder, IsQueueOf, HeldIn, Pays, Consumption, AfterConsume, IsConsumed;
    ExpiryOrderInTable(s.rows, order);
    if task.costCredits.Some? && task.costCredits.value > 0 {
      var cost := task.costCredits.value;
      var queue := ConsumptionExactly(s.rows, task.userId, cost, now, order);
      var r := Consumption(s.rows, task.userId, cost, now, order);
      if r.Ok? {
        ConsumedExactly(s.rows, task.userId, cost, r.value);
      }
    }
  }

  /** A failing update that names an active record gives back what it took and deletes it; no other update changes a
      credit. The task gets the status and the credit id that the update names. */
  ghost predicate IsUpdated(s: Ledger, after: Ledger, id: nat, status: Option<TaskStatus>, creditId: Option<nat>) {
    && |after.rows| == |s.rows| && |after.tasks| == |s.tasks|
    && (forall k :: 0 <= k < |s.tasks| ==>
          after.tasks[k] == if k != id then s.tasks[k] else
            Task(s.tasks[k].userId, s.tasks[k].costCredits, if status.Some? then status.value else s.tasks[k].status,
                 if creditId.Some? then creditId else s.tasks[k].creditId))
    && if status == Some(Failed) && creditId.Some? && creditId.value < |s.rows|
      && s.rows[creditId.value].status == Active
       then
         var items := s.rows[creditId.value].consumedDetail;
         forall i :: 0 <= i < |s.rows| ==>
           after.rows[i] == s.rows[i].(remainingCredits := s.rows[i].remainingCredits + TakenAway(items, i),
                                       status := if i == creditId.value then Deleted else s.rows[i].status)
       else after.rows == s.rows
  }

  lemma UpdateTaskExactly(s: Ledger, id: nat, status: Option<TaskStatus>, creditId: Option<nat>)
    ensures IsUpdated(s, Next(s, UpdateTask(id, status, creditId)), id, status, creditId)
  {
    hide TakenFrom, TakenAway;
    if status == Some(Failed) && creditId.Some? && creditId.value < |s.rows| {
      var items := s.rows[creditId.value].consumedDetail;
      forall i: nat | i < |s.rows|
        ensures TakenFrom(items, i) == TakenAway(items, i)
      {
        TakenExactly(items, i);
      }
    }
  }
}
