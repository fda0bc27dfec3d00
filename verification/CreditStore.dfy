/** The tables that the credit functions update in place; a throw rolls the transaction back. */
module CreditStores {
  import opened Wrappers
  import opened Sums
  import opened CreditLedger
  import CreditConsumption
  import CreditProofs

  class CreditStore {
    var rows: seq<Credit>
    var tasks: seq<Task>

    constructor ()
      ensures View() == Ledger([], [])
    {
      rows, tasks := [], [];
    }

    function View(): Ledger
      reads this
    {
      Ledger(rows, tasks)
    }

    method GetRemainingCredits(user: nat, now: int) returns (total: int)
      ensures total == Balance(rows, user, now)
    {
      total := 0;
      var i := 0;
      while i < |rows|
        invariant 0 <= i <= |rows|
        invariant total == Sum(EligibleAmounts(rows, user, now)[..i])
      {
        var amounts := EligibleAmounts(rows, user, now);
        assert amounts[..i + 1][..i] == amounts[..i];
        total := total + amounts[i];
        i := i + 1;
      }
      assert EligibleAmounts(rows, user, now)[..i] == EligibleAmounts(rows, user, now);
    }

    /** Adds a full grant: what the ledger conserves stays conserved, and the balance of that user, and of no other,
        is larger by the amount for as long as the grant is valid. */
    method GrantCreditsForUser(user: nat, credits: int, validDays: int, now: int)
      modifies this`rows
      ensures View() == AfterGrant(old(View()), user, credits, validDays, now)
      ensures CreditProofs.Conserved(old(rows)) ==> CreditProofs.Conserved(rows)
      ensures forall u, t ::
        Balance(rows, u, t) == Balance(old(rows), u, t) +
          (if credits > 0 && u == user
            && (validDays <= 0 || t < now + validDays * MILLISECONDS_PER_DAY) then credits else 0)
    {
      hide CreditProofs.Conserved, Balance;
      if credits <= 0 {
        return;
      }
      var grant := Credit(user, Grant, Active, credits, credits, GrantExpiry(now, validDays), []);
      if CreditProofs.Conserved(rows) {
        CreditProofs.GrantConserves(rows, grant);
      }
      forall u, t ensures Balance(rows + [grant], u, t)
        == Balance(rows, u, t) + (if IsEligible(grant, u, t) then credits else 0) {
        CreditConsumption.BalanceOfOneMore(rows, grant, u, t);
      }
      rows := rows + [grant];
    }

    /** The inner loop of `consumeCredits`: consumes from one batch, counting up `batchNo` per item. */
    method ConsumeBatch(batch: seq<nat>, need: int, firstNo: nat)
      returns (threw: bool, items: seq<ConsumedItem>, remainingToConsume: int)
      requires IsQueue(rows, batch) && IsStocked(rows, batch) && firstNo <= MAX_BATCH_NO
      modifies this`rows
      ensures var all := Fifo(old(rows), batch, need, firstNo);
        && (threw <==> firstNo + |all| > MAX_BATCH_NO)
        && (!threw ==>
          items == all && remainingToConsume == need - SumConsumed(all) && rows == Shifted(old(rows), all, -1))
    {
      hide Fifo, IsQueue;
      QueueInTable(rows, batch);
      ghost var before := rows;
      var batchNo, k := firstNo, 0;
      threw, items, remainingToConsume := false, [], need;
      ShiftedByNothing(rows, -1);
      assert batch[0..] == batch && items + Fifo(before, batch, need, firstNo) == Fifo(before, batch, need, firstNo);
      while k < |batch|
        invariant k == |items| <= |batch| && batchNo == firstNo + k <= MAX_BATCH_NO
        invariant Fifo(before, batch, need, firstNo) == items + Fifo(before, batch[k..], remainingToConsume, batchNo)
        invariant forall j :: 0 <= j < k ==> items[j].creditId == batch[j]
        invariant rows == Shifted(before, items, -1)
        invariant remainingToConsume == need - SumConsumed(items)
      {
        if remainingToConsume <= 0 {
          break;
        }
        var item := rows[batch[k]];
        UntouchedRow(before, batch, items, k);
        var toConsume := Min(remainingToConsume, item.remainingCredits);
        var taken := ConsumedItem(batch[k], item.expiresAt, remainingToConsume, toConsume, item.remainingCredits,
                                  item.remainingCredits - toConsume, batchNo);
        FifoStep(before, batch, k, remainingToConsume, batchNo, items, taken);
        rows := rows[batch[k] := item.(remainingCredits := item.remainingCredits - toConsume)];
        ShiftedByOneMore(before, items, taken);
        items := items + [taken];
        assert items[..|items| - 1] + [taken] == items;
        batchNo := batchNo + 1;
        remainingToConsume := remainingToConsume - toConsume;
        k := k + 1;
        if batchNo > MAX_BATCH_NO {
          return true, items, remainingToConsume;
        }
      }
      FifoOfNothing(before, batch[k..], remainingToConsume, batchNo);
      assert items + [] == items;
    }

    /** `consumeCredits`: at most one batch is ever queried, and a throw leaves the table as it was. */
    method ConsumeCredits(user: nat, credits: int, now: int, order: seq<nat>)
      returns (r: Result<nat>, ghost queries: nat)
      requires IsExpiryOrder(rows, order)
      modifies this`rows
      ensures queries <= 1
      ensures match Consumption(old(rows), user, credits, now, order)
        case Err => r == Err && rows == old(rows)
        case Ok(items) => r == Ok(|old(rows)|) && rows == AfterConsume(old(rows), user, credits, items)
    {
      hide Fifo, Balance, IsEligible, Shifted;
      var before := rows;
      queries := 0;
      var total := GetRemainingCredits(user, now);
      if Eligible(rows, order, user, now) == [] || total < credits {
        return Err, queries;
      }
      var remainingToConsume, batchNo := credits, 1;
      var consumedItems: seq<ConsumedItem> := [];
      NothingNeeded(before, order, user, credits, now);
      while remainingToConsume > 0
        invariant remainingToConsume > 0 ==>
          rows == before && consumedItems == [] && remainingToConsume == credits && batchNo == 1 && queries == 0
        invariant remainingToConsume <= 0 ==>
          Consumption(before, user, credits, now, order) == Ok(consumedItems)
            && rows == Shifted(before, consumedItems, -1)
        invariant queries <= 1
        decreases remainingToConsume
      {
        var batch := Page(Eligible(rows, order, user, now), (batchNo - 1) * BATCH_SIZE, BATCH_SIZE);
        queries := queries + 1;
        OneBatchDecides(before, order, user, credits, now);
        if |batch| == 0 {
          break;
        }
        var threw, items, remaining := ConsumeBatch(batch, remainingToConsume, batchNo);
        if threw {
          rows := before;
          return Err, queries;
        }
        assert [] + items == items;
        consumedItems, remainingToConsume, batchNo := consumedItems + items, remaining, batchNo + |items|;
      }
      rows := rows + [ConsumeRow(user, credits, consumedItems)];
      return Ok(|rows| - 1), queries;
    }

    /** `createAITask`: the task, its consumption and the link between them commit together. */
    method CreateAITask(task: Task, now: int, order: seq<nat>) returns (r: Result<Task>)
      requires IsExpiryOrder(rows, order)
      modifies this
      ensures View() == AfterCreateTask(old(View()), task, now, order)
      ensures r.Err? ==> View() == old(View())
    {
      hide IsExpiryOrder, Consumption, AfterConsume;
      var taskResult := task;
      tasks := tasks + [task];
      if task.costCredits.Some? && task.costCredits.value > 0 {
        var consumed, _ := ConsumeCredits(task.userId, task.costCredits.value, now, order);
        if consumed == Err {
          tasks := tasks[..|tasks| - 1];
          return Err;
        }
        taskResult := taskResult.(creditId := Some(consumed.value));
        tasks := tasks[|tasks| - 1 := taskResult];
      }
      return Ok(taskResult);
    }

    /** The increments of a refund, issued together and landing in any order. */
    method AddBack(items: seq<ConsumedItem>)
      modifies this`rows
      ensures rows == Shifted(old(rows), items, 1)
    {
      var pending := items;
      while pending != []
        invariant Shifted(rows, pending, 1) == Shifted(old(rows), items, 1)
        decreases |pending|
      {
        var k :| 0 <= k < |pending|;
        var item := pending[k];
        AddBackStep(rows, pending, k);
        if item.creditsConsumed > 0 && item.creditId < |rows| {
          var row := rows[item.creditId];
          rows := rows[item.creditId := row.(remainingCredits := row.remainingCredits + item.creditsConsumed)];
        }
        pending := pending[..k] + pending[k + 1..];
      }
      ShiftedByNothing(rows, 1);
    }

    /** `updateAITaskById` */
    method UpdateAITaskById(id: nat, status: Option<TaskStatus>, creditId: Option<nat>)
      modifies this
      ensures View() == AfterUpdateTask(old(View()), id, status, creditId)
    {
      if status == Some(Failed) && creditId.Some? {
        var record := creditId.value;
        if record < |rows| && rows[record].status == Active {
          AddBack(rows[record].consumedDetail);
          rows := rows[record := rows[record].(status := Deleted)];
        }
      }
      if id < |tasks| {
        tasks := tasks[id := UpdatedTask(tasks[id], status, creditId)];
      }
    }
  }

  lemma AddBackStep(rows: seq<Credit>, pending: seq<ConsumedItem>, k: nat)
    requires k < |pending|
    ensures var item, rest := pending[k], pending[..k] + pending[k + 1..];
      Shifted(rows, pending, 1) ==
      if item.creditsConsumed > 0 && item.creditId < |rows| then
        var row := rows[item.creditId];
        Shifted(rows[item.creditId := row.(remainingCredits := row.remainingCredits + item.creditsConsumed)], rest, 1)
      else Shifted(rows, rest, 1)
  {
    var item := pending[k];
    assert pending == pending[..k] + [item] + pending[k + 1..];
    forall i: nat | i < |rows|
      ensures TakenFrom(pending, i) == TakenFrom(pending[..k] + pending[k + 1..], i)
        + (if item.creditId == i && item.creditsConsumed > 0 then item.creditsConsumed else 0)
    {
      TakenFromConcat(pending[..k] + [item], pending[k + 1..], i);
      TakenFromSnoc(pending[..k], item, i);
      TakenFromConcat(pending[..k], pending[k + 1..], i);
    }
  }

  lemma QueueInTable(rows: seq<Credit>, ids: seq<nat>)
    requires IsQueue(rows, ids)
    ensures forall k :: 0 <= k < |ids| ==> ids[k] < |rows|
  {
  }

  lemma FifoOfNothing(rows: seq<Credit>, ids: seq<nat>, need: int, batchNo: nat)
    requires (need <= 0 || ids == []) && forall k :: 0 <= k < |ids| ==> ids[k] < |rows|
    ensures Fifo(rows, ids, need, batchNo) == []
  {
  }

  lemma ShiftedByNothing(rows: seq<Credit>, sign: int)
    ensures Shifted(rows, [], sign) == rows
  {
  }

  lemma ShiftedByOneMore(rows: seq<Credit>, items: seq<ConsumedItem>, item: ConsumedItem)
    requires item.creditId < |rows| && item.creditsConsumed > 0
    ensures var row := Shifted(rows, items, -1)[item.creditId];
      Shifted(rows, items + [item], -1)
      == Shifted(rows, items, -1)[item.creditId :=
        row.(remainingCredits := row.remainingCredits - item.creditsConsumed)]
  {
    forall i | 0 <= i < |rows|
      ensures TakenFrom(items + [item], i)
        == TakenFrom(items, i) + (if item.creditId == i then item.creditsConsumed else 0)
    {
      TakenFromSnoc(items, item, i);
    }
  }

  lemma UntouchedRow(rows: seq<Credit>, batch: seq<nat>, items: seq<ConsumedItem>, k: nat)
    requires IsQueue(rows, batch) && k < |batch| && |items| == k && forall j :: 0 <= j < k ==>
      items[j].creditId == batch[j]
    ensures Shifted(rows, items, -1)[batch[k]] == rows[batch[k]]
  {
    TakenFromAbsent(items, batch[k]);
  }

  lemma FifoStep(rows: seq<Credit>, batch: seq<nat>, k: nat, need: int, batchNo: nat, items: seq<ConsumedItem>,
    taken: ConsumedItem)
    requires k < |batch| && need > 0 && forall j :: 0 <= j < |batch| ==> batch[j] < |rows|
    requires var item, take := rows[batch[k]], Min(need, rows[batch[k]].remainingCredits);
      taken == ConsumedItem(batch[k], item.expiresAt, need, take, item.remainingCredits, item.remainingCredits - take,
        batchNo)
    ensures items + Fifo(rows, batch[k..], need, batchNo)
         == items + [taken] + Fifo(rows, batch[k + 1..], need - taken.creditsConsumed, batchNo + 1)
  {
    assert batch[k..][0] == batch[k] && batch[k..][1..] == batch[k + 1..];
    var rest := Fifo(rows, batch[k + 1..], need - taken.creditsConsumed, batchNo + 1);
    assert items + ([taken] + rest) == items + [taken] + rest;
  }

  lemma NothingNeeded(rows: seq<Credit>, order: seq<nat>, user: nat, credits: int, now: int)
    requires IsExpiryOrder(rows, order)
    requires Eligible(rows, order, user, now) != [] && Balance(rows, user, now) >= credits
    ensures credits <= 0 ==> Consumption(rows, user, credits, now, order) == Ok([]) && rows == Shifted(rows, [], -1)
  {
    hide Balance, IsEligible;
    ShiftedByNothing(rows, -1);
  }

  /** With enough balance the first batch is not empty, and consuming from it alone gives the outcome. */
  lemma OneBatchDecides(rows: seq<Credit>, order: seq<nat>, user: nat, credits: int, now: int)
    requires IsExpiryOrder(rows, order) && credits > 0
    requires Eligible(rows, order, user, now) != [] && Balance(rows, user, now) >= credits
    ensures var batch := Page(Eligible(rows, order, user, now), 0, BATCH_SIZE);
      && batch != [] && IsQueue(rows, batch) && IsStocked(rows, batch)
      && var items := Fifo(rows, batch, credits, 1);
        if |items| < MAX_BATCH_NO then
          Consumption(rows, user, credits, now, order) == Ok(items) && SumConsumed(items) == credits
        else Consumption(rows, user, credits, now, order) == Err
  {
    hide Balance, Fifo, IsExpiryOrder, SumConsumed, SumRemaining;
    ExpiryOrderIsQueue(rows, order);
    var ids := Eligible(rows, order, user, now);
    EligibleQueue(rows, order, user, now);
    assert IsStocked(rows, ids);
    BalanceOfEligible(rows, order, user, now);
    FifoTotal(rows, ids, credits, 1);
    if |ids| >= BATCH_SIZE {
      FifoPrefix(rows, ids, BATCH_SIZE, credits, 1);
      assert Page(ids, 0, BATCH_SIZE) == ids[..BATCH_SIZE];
    } else {
      assert Page(ids, 0, BATCH_SIZE) == ids;
    }
  }
}
