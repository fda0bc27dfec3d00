/** The credit ledger: grants are consumed in order of expiry, every consumption records what it took
    from which grant, and failing a task gives that back. A row's id is its position in the table, so
    ids are fresh. Time is an integer number of milliseconds. */
module CreditLedger {
  import opened Wrappers
  import opened Sums

  const BATCH_SIZE := 1000
  const MAX_BATCH_NO := 10
  const MILLISECONDS_PER_DAY := 86_400_000

  datatype TransactionType = Grant | Consume
  datatype CreditStatus = Active | Expired | Deleted

  datatype ConsumedItem = ConsumedItem(
    creditId: nat, expiresAt: Option<int>, creditsToConsume: int, creditsConsumed: int,
    creditsBefore: int, creditsAfter: int, batchNo: nat)

  datatype Credit = Credit(
    userId: nat, transactionType: TransactionType, status: CreditStatus,
    credits: int, remainingCredits: int, expiresAt: Option<int>, consumedDetail: seq<ConsumedItem>)

  datatype TaskStatus = Pending | Processing | Success | Failed | Canceled
  datatype Task = Task(userId: nat, costCredits: Option<int>, status: TaskStatus, creditId: Option<nat>)

  datatype Ledger = Ledger(rows: seq<Credit>, tasks: seq<Task>)

  // ----- queries -----

  predicate IsUnexpired(c: Credit, now: int) {
    c.expiresAt == None || c.expiresAt.value > now
  }

  /** An active grant of the user that has not expired. */
  predicate IsOpenGrant(c: Credit, user: nat, now: int) {
    c.userId == user && c.transactionType == Grant && c.status == Active && IsUnexpired(c, now)
  }

  predicate IsEligible(c: Credit, user: nat, now: int) {
    IsOpenGrant(c, user, now) && c.remainingCredits > 0
  }

  function EligibleAmounts(rows: seq<Credit>, user: nat, now: int): (r: seq<int>)
    ensures |r| == |rows|
    ensures forall i :: 0 <= i < |r| ==> r[i] == if IsEligible(rows[i], user, now) then rows[i].remainingCredits else 0
  {
    seq(|rows|, i requires 0 <= i < |rows| => if IsEligible(rows[i], user, now) then rows[i].remainingCredits else 0)
  }

  /** `getRemainingCredits`, and the balance that a consumption checks first. */
  function Balance(rows: seq<Credit>, user: nat, now: int): int {
    Sum(EligibleAmounts(rows, user, now))
  }

  /** Expiry order; credits that never expire come last. */
  predicate ExpiresNoLater(a: Option<int>, b: Option<int>) {
    b == None || (a.Some? && a.value <= b.value)
  }

  /** The order in which the database lists the table by expiry; ties may fall either way. */
  ghost predicate IsExpiryOrder(rows: seq<Credit>, order: seq<nat>) {
    && IsPermutation(order, |rows|)
    && forall j, k :: 0 <= j < k < |order| ==> ExpiresNoLater(rows[order[j]].expiresAt, rows[order[k]].expiresAt)
  }

  /** The eligible rows, in the given order. */
  function Eligible(rows: seq<Credit>, order: seq<nat>, user: nat, now: int): (ids: seq<nat>)
    requires forall k :: 0 <= k < |order| ==> order[k] < |rows|
    ensures |ids| <= |order|
    ensures forall k :: 0 <= k < |ids| ==> ids[k] in order && ids[k] < |rows| && IsEligible(rows[ids[k]], user, now)
  {
    if order == [] then []
    else
      var n := |order| - 1;
      var before := Eligible(rows, order[..n], user, now);
      if IsEligible(rows[order[n]], user, now) then before + [order[n]] else before
  }

  /** `limit` and `offset` of a query. */
  function Page(ids: seq<nat>, offset: nat, limit: nat): seq<nat> {
    if offset >= |ids| then [] else if offset + limit >= |ids| then ids[offset..] else ids[offset..offset + limit]
  }

  // ----- what a consumption takes -----

  function Min(a: int, b: int): int {
    if a <= b then a else b
  }

  /** Takes `need` from the listed grants, first to last. */
  function Fifo(rows: seq<Credit>, ids: seq<nat>, need: int, batchNo: nat): seq<ConsumedItem>
    requires forall k :: 0 <= k < |ids| ==> ids[k] < |rows|
    decreases |ids|
  {
    if need <= 0 || ids == [] then []
    else
      var item := rows[ids[0]];
      var take := Min(need, item.remainingCredits);
      [ConsumedItem(ids[0], item.expiresAt, need, take, item.remainingCredits, item.remainingCredits - take, batchNo)]
      + Fifo(rows, ids[1..], need - take, batchNo + 1)
  }

  /** The amount that the recorded items took from one grant. */
  function TakenFrom(items: seq<ConsumedItem>, id: nat): (r: nat)
  {
    if items == [] then 0
    else
      var last := items[|items| - 1];
      TakenFrom(items[..|items| - 1], id)
      + (if last.creditId == id && last.creditsConsumed > 0 then last.creditsConsumed else 0)
  }

  /** The table after taking, or (sign 1) giving back, what the items record. */
  function Shifted(rows: seq<Credit>, items: seq<ConsumedItem>, sign: int): (r: seq<Credit>)
    ensures |r| == |rows|
    ensures forall i :: 0 <= i < |r| ==>
      r[i] == rows[i].(remainingCredits := rows[i].remainingCredits + sign * TakenFrom(items, i))
  {
    seq(|rows|, i requires 0 <= i < |rows| =>
      rows[i].(remainingCredits := rows[i].remainingCredits + sign * TakenFrom(items, i)))
  }

  /** What a consumption takes, or the error it throws. */
  function Consumption(rows: seq<Credit>, user: nat, credits: int, now: int, order: seq<nat>): Result<seq<ConsumedItem>>
    requires forall k :: 0 <= k < |order| ==> order[k] < |rows|
  {
    var ids := Eligible(rows, order, user, now);
    if ids == [] || Balance(rows, user, now) < credits then Err
    else
      var items := Fifo(rows, ids, credits, 1);
      if |items| >= MAX_BATCH_NO then Err else Ok(items)
  }

  function ConsumeRow(user: nat, credits: int, items: seq<ConsumedItem>): Credit {
    Credit(user, Consume, Active, -credits, 0, None, items)
  }

  function AfterConsume(rows: seq<Credit>, user: nat, credits: int, items: seq<ConsumedItem>): seq<Credit> {
    Shifted(rows, items, -1) + [ConsumeRow(user, credits, items)]
  }

  // ----- the steps on whole ledgers -----

  function GrantExpiry(now: int, validDays: int): Option<int> {
    if validDays > 0 then Some(now + validDays * MILLISECONDS_PER_DAY) else None
  }

  function AfterGrant(s: Ledger, user: nat, credits: int, validDays: int, now: int): Ledger {
    if credits <= 0 then s
    else s.(rows := s.rows + [Credit(user, Grant, Active, credits, credits, GrantExpiry(now, validDays), [])])
  }

  /** A task that costs credits is created together with its consumption, or not at all. */
  function AfterCreateTask(s: Ledger, task: Task, now: int, order: seq<nat>): Ledger
    requires forall k :: 0 <= k < |order| ==> order[k] < |s.rows|
  {
    if task.costCredits == None || task.costCredits.value <= 0 then s.(tasks := s.tasks + [task])
    else
      match Consumption(s.rows, task.userId, task.costCredits.value, now, order)
      case Err => s
      case Ok(items) =>
        Ledger(AfterConsume(s.rows, task.userId, task.costCredits.value, items),
               s.tasks + [task.(creditId := Some(|s.rows|))])
  }

  /** Gives back what an active record took and deletes the record; does nothing for any other id. */
  function Refunded(rows: seq<Credit>, id: nat): (r: seq<Credit>)
    ensures |r| == |rows|
  {
    if id < |rows| && rows[id].status == Active then
      var back := Shifted(rows, rows[id].consumedDetail, 1);
      back[id := back[id].(status := Deleted)]
    else rows
  }

  function UpdatedTask(task: Task, status: Option<TaskStatus>, creditId: Option<nat>): Task {
    task.(status := if status.Some? then status.value else task.status,
          creditId := if creditId.Some? then creditId else task.creditId)
  }

  /** `updateAITaskById`: the refund uses the credit id of the update, not the one of the task. */
  function AfterUpdateTask(s: Ledger, taskId: nat, status: Option<TaskStatus>, creditId: Option<nat>): Ledger {
    Ledger(if status == Some(Failed) && creditId.Some? then Refunded(s.rows, creditId.value) else s.rows,
           if taskId < |s.tasks| then s.tasks[taskId := UpdatedTask(s.tasks[taskId], status, creditId)] else s.tasks)
  }

  // ----- lemmas about the FIFO loop -----

  function SumRemaining(rows: seq<Credit>, ids: seq<nat>): int
    requires forall k :: 0 <= k < |ids| ==> ids[k] < |rows|
  {
    if ids == [] then 0 else SumRemaining(rows, ids[..|ids| - 1]) + rows[ids[|ids| - 1]].remainingCredits
  }

  lemma {:induction false} EligibleSum(rows: seq<Credit>, order: seq<nat>, user: nat, now: int)
    requires forall k :: 0 <= k < |order| ==> order[k] < |rows|
    ensures SumRemaining(rows, Eligible(rows, order, user, now)) == Sum(Pick(EligibleAmounts(rows, user, now), order))
  {
    if order != [] {
      var n := |order| - 1;
      EligibleSum(rows, order[..n], user, now);
      var amounts := EligibleAmounts(rows, user, now);
      assert Pick(amounts, order)[..n] == Pick(amounts, order[..n]);
      var before := Eligible(rows, order[..n], user, now);
      assert (before + [order[n]])[..|before|] == before;
    }
  }

  /** The balance is what the listed grants hold. */
  lemma BalanceOfEligible(rows: seq<Credit>, order: seq<nat>, user: nat, now: int)
    requires IsExpiryOrder(rows, order)
    ensures SumRemaining(rows, Eligible(rows, order, user, now)) == Balance(rows, user, now)
  {
    EligibleSum(rows, order, user, now);
    SumPick(EligibleAmounts(rows, user, now), order);
  }

  ghost predicate IsQueue(rows: seq<Credit>, ids: seq<nat>) {
    && (forall k :: 0 <= k < |ids| ==> ids[k] < |rows|)
    && (forall j, k :: 0 <= j < k < |ids| ==> ids[j] != ids[k])
    && (forall j, k :: 0 <= j < k < |ids| ==> ExpiresNoLater(rows[ids[j]].expiresAt, rows[ids[k]].expiresAt))
  }

  lemma QueueSnoc(rows: seq<Credit>, ids: seq<nat>, order: seq<nat>)
    requires order != [] && IsQueue(rows, order) && IsQueue(rows, ids)
    requires forall k :: 0 <= k < |ids| ==> ids[k] in order[..|order| - 1]
    ensures IsQueue(rows, ids + [order[|order| - 1]])
  {
    var last := order[|order| - 1];
    forall k | 0 <= k < |ids|
      ensures ids[k] != last && ExpiresNoLater(rows[ids[k]].expiresAt, rows[last].expiresAt)
    {
      var j :| 0 <= j < |order| - 1 && order[j] == ids[k];
    }
  }

  /** The eligible rows keep the order of the listing. */
  lemma {:induction false} EligibleQueue(rows: seq<Credit>, order: seq<nat>, user: nat, now: int)
    requires IsQueue(rows, order)
    ensures IsQueue(rows, Eligible(rows, order, user, now))
  {
    hide IsEligible;
    if order != [] {
      var n := |order| - 1;
      EligibleQueue(rows, order[..n], user, now);
      var before := Eligible(rows, order[..n], user, now);
      QueueSnoc(rows, before, order);
    }
  }

  lemma {:induction false} EligibleComplete(rows: seq<Credit>, order: seq<nat>, user: nat, now: int, i: nat)
    requires forall k :: 0 <= k < |order| ==> order[k] < |rows|
    requires i in order && IsEligible(rows[i], user, now)
    ensures i in Eligible(rows, order, user, now)
  {
    var n := |order| - 1;
    if order[n] != i {
      assert i in order[..n];
      EligibleComplete(rows, order[..n], user, now, i);
    }
  }

  lemma TakenFromSnoc(items: seq<ConsumedItem>, item: ConsumedItem, id: nat)
    ensures TakenFrom(items + [item], id)
         == TakenFrom(items, id) + (if item.creditId == id && item.creditsConsumed > 0 then item.creditsConsumed else 0)
  {
    assert (items + [item])[..|items|] == items;
  }

  lemma {:induction false} TakenFromConcat(a: seq<ConsumedItem>, b: seq<ConsumedItem>, id: nat)
    ensures TakenFrom(a + b, id) == TakenFrom(a, id) + TakenFrom(b, id)
  {
    if b == [] {
      assert a + b == a;
    } else {
      var n := |b| - 1;
      TakenFromConcat(a, b[..n], id);
      assert a + b == (a + b[..n]) + [b[n]] && b == b[..n] + [b[n]];
      TakenFromSnoc(a + b[..n], b[n], id);
    }
  }

  lemma {:induction false} TakenFromAbsent(items: seq<ConsumedItem>, id: nat)
    requires forall k :: 0 <= k < |items| ==> items[k].creditId != id
    ensures TakenFrom(items, id) == 0
  {
    if items != [] {
      TakenFromAbsent(items[..|items| - 1], id);
    }
  }

  function SumConsumed(items: seq<ConsumedItem>): int {
    if items == [] then 0 else SumConsumed(items[..|items| - 1]) + items[|items| - 1].creditsConsumed
  }

  lemma {:induction false} SumConsumedCons(item: ConsumedItem, items: seq<ConsumedItem>)
    ensures SumConsumed([item] + items) == item.creditsConsumed + SumConsumed(items)
  {
    var all := [item] + items;
    if items != [] {
      var n := |items| - 1;
      SumConsumedCons(item, items[..n]);
      assert all[..|all| - 1] == [item] + items[..n];
    }
  }

  lemma {:induction false} SumRemainingCons(rows: seq<Credit>, ids: seq<nat>)
    requires ids != [] && forall k :: 0 <= k < |ids| ==> ids[k] < |rows|
    ensures SumRemaining(rows, ids) == rows[ids[0]].remainingCredits + SumRemaining(rows, ids[1..])
  {
    if |ids| == 1 {
      assert ids[..0] == [] && ids[1..] == [];
    } else {
      var n := |ids| - 1;
      SumRemainingCons(rows, ids[..n]);
      assert ids[1..][..n - 1] == ids[..n][1..];
    }
  }

  /** Every listed grant has something left. */
  ghost predicate IsStocked(rows: seq<Credit>, ids: seq<nat>) {
    forall k :: 0 <= k < |ids| ==> ids[k] < |rows| && rows[ids[k]].remainingCredits > 0
  }

  lemma {:induction false} StockedSumPositive(rows: seq<Credit>, ids: seq<nat>)
    requires IsStocked(rows, ids)
    ensures SumRemaining(rows, ids) >= |ids|
  {
    if ids != [] {
      StockedSumPositive(rows, ids[..|ids| - 1]);
    }
  }

  /** The loop takes the amount asked for, or all there is. */
  lemma {:induction false} FifoTotal(rows: seq<Credit>, ids: seq<nat>, need: int, batchNo: nat)
    requires IsStocked(rows, ids) && need >= 0
    ensures SumConsumed(Fifo(rows, ids, need, batchNo)) == Min(need, SumRemaining(rows, ids))
    decreases |ids|
  {
    StockedSumPositive(rows, ids);
    if need > 0 && ids != [] {
      var items := Fifo(rows, ids, need, batchNo);
      var take := items[0].creditsConsumed;
      FifoTotal(rows, ids[1..], need - take, batchNo + 1);
      SumConsumedCons(items[0], items[1..]);
      SumRemainingCons(rows, ids);
      StockedSumPositive(rows, ids[1..]);
      assert items == [items[0]] + items[1..];
    }
  }

  /** Cutting the queue short cuts the items short, and changes nothing else. */
  lemma {:induction false} FifoPrefix(rows: seq<Credit>, ids: seq<nat>, m: nat, need: int, batchNo: nat)
    requires m <= |ids| && forall k :: 0 <= k < |ids| ==> ids[k] < |rows|
    ensures var all, cut := Fifo(rows, ids, need, batchNo), Fifo(rows, ids[..m], need, batchNo);
      cut == if |all| <= m then all else all[..m]
    decreases |ids|
  {
    if need > 0 && m > 0 {
      var take := Min(need, rows[ids[0]].remainingCredits);
      FifoPrefix(rows, ids[1..], m - 1, need - take, batchNo + 1);
      assert ids[..m][1..] == ids[1..][..m - 1];
    }
  }

  /** Each item names its grant, drains it unless it is the last item, and takes something. */
  ghost predicate IsGreedy(rows: seq<Credit>, ids: seq<nat>, items: seq<ConsumedItem>) {
    && |items| <= |ids|
    && forall k :: 0 <= k < |items| ==>
      && items[k].creditId == ids[k] < |rows|
      && 0 < items[k].creditsConsumed <= rows[ids[k]].remainingCredits
      && (k < |items| - 1 ==> items[k].creditsConsumed == rows[ids[k]].remainingCredits)
  }

  lemma {:induction false} FifoIsGreedy(rows: seq<Credit>, ids: seq<nat>, need: int, batchNo: nat)
    requires IsStocked(rows, ids)
    ensures IsGreedy(rows, ids, Fifo(rows, ids, need, batchNo))
    decreases |ids|
  {
    if need > 0 && ids != [] {
      var take := Min(need, rows[ids[0]].remainingCredits);
      FifoIsGreedy(rows, ids[1..], need - take, batchNo + 1);
      var rest := Fifo(rows, ids[1..], need - take, batchNo + 1);
      assert forall k :: 0 <= k < |rest| ==> rest[k].creditId == ids[1..][k] == ids[k + 1];
    }
  }

  lemma ExpiryOrderInTable(rows: seq<Credit>, order: seq<nat>)
    requires IsExpiryOrder(rows, order)
    ensures forall k :: 0 <= k < |order| ==> order[k] < |rows|
  {
  }

  lemma ExpiryOrderIsQueue(rows: seq<Credit>, order: seq<nat>)
    requires IsExpiryOrder(rows, order)
    ensures IsQueue(rows, order)
  {
  }
}
