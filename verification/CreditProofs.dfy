/** What the credit ledger keeps, over every run of grants, task creations and task updates. */
module CreditProofs {
  import opened Wrappers
  import opened Sums
  import opened CreditLedger
  import opened CreditConsumption

  // ----- conservation -----

  /** What a still active consumption record took from a grant. */
  function Contribution(row: Credit, grant: nat): nat {
    if row.transactionType == Consume && row.status == Active then TakenFrom(row.consumedDetail, grant) else 0
  }

  function Contributions(rows: seq<Credit>, grant: nat): (r: seq<int>)
    ensures |r| == |rows| && forall i :: 0 <= i < |r| ==> r[i] == Contribution(rows[i], grant)
  {
    seq(|rows|, i requires 0 <= i < |rows| => Contribution(rows[i], grant) as int)
  }

  function Outstanding(rows: seq<Credit>, grant: nat): int {
    Sum(Contributions(rows, grant))
  }

  ghost predicate GoodRow(rows: seq<Credit>, i: nat)
    requires i < |rows|
  {
    match rows[i].transactionType
    case Grant =>
      && rows[i].consumedDetail == []
      && 0 <= rows[i].remainingCredits <= rows[i].credits
      && rows[i].remainingCredits + Outstanding(rows, i) == rows[i].credits
    case Consume =>
      forall k :: 0 <= k < |rows[i].consumedDetail| ==>
        var item := rows[i].consumedDetail[k];
        item.creditsConsumed > 0 && item.creditId < |rows| && rows[item.creditId].transactionType == Grant
  }

  /** For every grant, what remains plus what active records took from it is what was granted. */
  ghost predicate Conserved(rows: seq<Credit>) {
    forall i: nat :: i < |rows| ==> GoodRow(rows, i)
  }

  lemma {:induction false} OutstandingNonNegative(rows: seq<Credit>, grant: nat)
    ensures Outstanding(rows, grant) >= 0
  {
    var zeros := seq(|rows|, i => 0);
    SumZeros(zeros);
    SumMonotone(zeros, Contributions(rows, grant));
  }

  lemma ContributionsSnoc(rows: seq<Credit>, row: Credit, grant: nat)
    ensures Outstanding(rows + [row], grant) == Outstanding(rows, grant) + Contribution(row, grant)
  {
    assert Contributions(rows + [row], grant) == Contributions(rows, grant) + [Contribution(row, grant) as int];
    SumSnoc(Contributions(rows, grant), Contribution(row, grant));
  }

  lemma ContributionsUpdate(rows: seq<Credit>, k: nat, row: Credit, grant: nat)
    requires k < |rows|
    ensures Outstanding(rows[k := row], grant)
         == Outstanding(rows, grant) - Contribution(rows[k], grant) + Contribution(row, grant)
  {
    assert Contributions(rows[k := row], grant) == Contributions(rows, grant)[k := Contribution(row, grant)];
    SumUpdate(Contributions(rows, grant), k, Contribution(row, grant));
  }

  lemma ShiftKeepsContributions(rows: seq<Credit>, items: seq<ConsumedItem>, sign: int, grant: nat)
    ensures Outstanding(Shifted(rows, items, sign), grant) == Outstanding(rows, grant)
  {
    assert Contributions(Shifted(rows, items, sign), grant) == Contributions(rows, grant);
  }

  /** A grant that no record can name yet has nothing outstanding. */
  lemma NewIdOutstanding(rows: seq<Credit>)
    requires Conserved(rows)
    ensures Outstanding(rows, |rows|) == 0
  {
    hide Outstanding;
    forall i | 0 <= i < |rows|
      ensures Contributions(rows, |rows|)[i] == 0
    {
      assert GoodRow(rows, i);
      TakenFromAbsent(rows[i].consumedDetail, |rows|);
    }
    SumZeros(Contributions(rows, |rows|));
    OutstandingIs(rows, |rows|);
  }

  lemma OutstandingIs(rows: seq<Credit>, grant: nat)
    ensures Outstanding(rows, grant) == Sum(Contributions(rows, grant))
  {
  }

  lemma GrantConserves(rows: seq<Credit>, row: Credit)
    requires Conserved(rows) && row.transactionType == Grant && row.consumedDetail == []
    requires row.credits == row.remainingCredits >= 0
    ensures Conserved(rows + [row])
  {
    hide Outstanding, Contribution;
    var after := rows + [row];
    assert forall g: nat {:trigger Outstanding(after, g)} :: Outstanding(after, g) == Outstanding(rows, g) by {
      forall g: nat
        ensures Outstanding(after, g) == Outstanding(rows, g)
      {
        ContributionsSnoc(rows, row, g);
        GrantContributesNothing(row, g);
      }
    }
    NewIdOutstanding(rows);
    forall i: nat | i < |after|
      ensures GoodRow(after, i)
    {
      if i < |rows| {
        assert GoodRow(rows, i);
      }
    }
  }

  lemma GrantContributesNothing(row: Credit, grant: nat)
    requires row.transactionType == Grant
    ensures Contribution(row, grant) == 0
  {
  }

  /** The items take from grants only what the grants have. */
  ghost predicate Affordable(rows: seq<Credit>, items: seq<ConsumedItem>) {
    && (forall k :: 0 <= k < |items| ==>
          items[k].creditsConsumed > 0 && items[k].creditId < |rows|
            && rows[items[k].creditId].transactionType == Grant)
    && (forall i: nat :: i < |rows| && rows[i].transactionType == Grant ==>
      TakenFrom(items, i) <= rows[i].remainingCredits)
  }

  lemma ConsumptionAffordable(rows: seq<Credit>, user: nat, credits: int, now: int, order: seq<nat>)
    requires Conserved(rows) && IsExpiryOrder(rows, order) && Consumption(rows, user, credits, now, order).Ok?
    requires credits > 0
    ensures Affordable(rows, Consumption(rows, user, credits, now, order).value)
  {
    hide Consumption, Outstanding, IsExpiryOrder, SumConsumed;
    ExpiryOrderIsQueue(rows, order);
    var items, ids := Consumption(rows, user, credits, now, order).value, Eligible(rows, order, user, now);
    ConsumptionIsExact(rows, user, credits, now, order);
    forall i: nat | i < |rows| && rows[i].transactionType == Grant
      ensures TakenFrom(items, i) <= rows[i].remainingCredits
    {
      assert GoodRow(rows, i);
      if i in ids[..|items|] {
        var k :| 0 <= k < |items| && ids[..|items|][k] == i;
        assert ids[k] == i;
      }
    }
  }

  lemma ConsumeConserves(rows: seq<Credit>, user: nat, credits: int, items: seq<ConsumedItem>)
    requires Conserved(rows) && Affordable(rows, items)
    ensures Conserved(AfterConsume(rows, user, credits, items))
  {
    hide Outstanding, Contribution;
    var after, record := AfterConsume(rows, user, credits, items), ConsumeRow(user, credits, items);
    forall g: nat
      ensures Outstanding(after, g) == Outstanding(rows, g) + TakenFrom(items, g)
    {
      ShiftKeepsContributions(rows, items, -1, g);
      ContributionsSnoc(Shifted(rows, items, -1), record, g);
      RecordContributes(record, g);
    }
    forall i: nat | i < |after|
      ensures GoodRow(after, i)
    {
      if i < |rows| {
        assert GoodRow(rows, i);
      }
    }
  }

  lemma RecordContributes(record: Credit, grant: nat)
    requires record.transactionType == Consume
    ensures Contribution(record, grant) == if record.status == Active then TakenFrom(record.consumedDetail, grant)
      else 0
  {
  }

  lemma RefundConserves(rows: seq<Credit>, id: nat)
    requires Conserved(rows)
    ensures Conserved(Refunded(rows, id))
  {
    hide Outstanding, Contribution;
    if id < |rows| && rows[id].status == Active {
      var items := rows[id].consumedDetail;
      var back, after := Shifted(rows, items, 1), Refunded(rows, id);
      assert GoodRow(rows, id);
      forall g: nat
        ensures Outstanding(after, g) == Outstanding(rows, g) - TakenFrom(items, g)
      {
        ShiftKeepsContributions(rows, items, 1, g);
        ContributionsUpdate(back, id, back[id].(status := Deleted), g);
        if rows[id].transactionType == Grant {
          GrantContributesNothing(back[id], g);
          GrantContributesNothing(after[id], g);
        } else {
          RecordContributes(back[id], g);
          RecordContributes(after[id], g);
        }
      }
      forall i: nat | i < |after|
        ensures GoodRow(after, i)
      {
        assert GoodRow(rows, i);
        OutstandingNonNegative(after, i);
      }
    }
  }

  // ----- runs -----

  datatype Event =
    | GrantCredits(user: nat, credits: int, validDays: int, now: int)
    | CreateTask(task: Task, now: int, order: seq<nat>)
    | UpdateTask(id: nat, status: Option<TaskStatus>, creditId: Option<nat>)

  /** A creation sees the table in some expiry order. */
  ghost predicate Enabled(s: Ledger, e: Event) {
    e.CreateTask? ==> IsExpiryOrder(s.rows, e.order)
  }

  ghost function Next(s: Ledger, e: Event): Ledger
    requires Enabled(s, e)
  {
    match e
    case GrantCredits(user, credits, validDays, now) => AfterGrant(s, user, credits, validDays, now)
    case CreateTask(task, now, order) => AfterCreateTask(s, task, now, order)
    case UpdateTask(id, status, creditId) => AfterUpdateTask(s, id, status, creditId)
  }

  ghost predicate ValidRun(s: Ledger, run: seq<Event>)
    decreases |run|
  {
    run == [] || (Enabled(s, run[0]) && ValidRun(Next(s, run[0]), run[1..]))
  }

  ghost function After(s: Ledger, run: seq<Event>): Ledger
    requires ValidRun(s, run)
    decreases |run|
  {
    if run == [] then s else After(Next(s, run[0]), run[1..])
  }

  lemma StepConserves(s: Ledger, e: Event)
    requires Conserved(s.rows) && Enabled(s, e)
    ensures Conserved(Next(s, e).rows)
  {
    hide Conserved, Consumption, AfterConsume, Refunded, IsExpiryOrder, Affordable;
    match e
    case GrantCredits(user, credits, validDays, now) =>
      if credits > 0 {
        GrantConserves(s.rows, Credit(user, Grant, Active, credits, credits, GrantExpiry(now, validDays), []));
      }
    case CreateTask(task, now, order) =>
      ExpiryOrderInTable(s.rows, order);
      if task.costCredits.Some? && task.costCredits.value > 0 {
        var consumed := Consumption(s.rows, task.userId, task.costCredits.value, now, order);
        if consumed.Ok? {
          ConsumptionAffordable(s.rows, task.userId, task.costCredits.value, now, order);
          ConsumeConserves(s.rows, task.userId, task.costCredits.value, consumed.value);
        }
      }
    case UpdateTask(id, status, creditId) =>
      if status == Some(Failed) && creditId.Some? {
        RefundConserves(s.rows, creditId.value);
      }
  }

  /** Conservation over every run that starts from the empty ledger, or from any conserved one. */
  lemma {:induction false} RunConserves(s: Ledger, run: seq<Event>)
    requires Conserved(s.rows) && ValidRun(s, run)
    ensures Conserved(After(s, run).rows)
    decreases |run|
  {
    hide Conserved, Enabled, Next;
    if run != [] {
      StepConserves(s, run[0]);
      RunConserves(Next(s, run[0]), run[1..]);
    }
  }

  /** In every reachable ledger each grant holds between nothing and all of its credits, and what it lacks is
      what the active records took from it. */
  lemma EveryRunConserves(run: seq<Event>, i: nat)
    requires ValidRun(Ledger([], []), run) && i < |After(Ledger([], []), run).rows|
    ensures var rows := After(Ledger([], []), run).rows;
      rows[i].transactionType == Grant ==>
        0 <= rows[i].remainingCredits <= rows[i].credits
          && rows[i].remainingCredits + Outstanding(rows, i) == rows[i].credits
  {
    RunConserves(Ledger([], []), run);
    var rows := After(Ledger([], []), run).rows;
    assert GoodRow(rows, i);
    OutstandingNonNegative(rows, i);
  }

  // ----- a refund undoes its consumption -----

  /** What no step ever changes in a row; the status can only go from active to deleted. */
  ghost predicate SameRecord(a: Credit, b: Credit) {
    && b.userId == a.userId && b.transactionType == a.transactionType && b.credits == a.credits
    && b.expiresAt == a.expiresAt && b.consumedDetail == a.consumedDetail
    && (b.status == a.status || (a.status == Active && b.status == Deleted))
  }

  ghost predicate Extends(before: seq<Credit>, after: seq<Credit>) {
    |before| <= |after| && forall i :: 0 <= i < |before| ==> SameRecord(before[i], after[i])
  }

  lemma StepExtends(s: Ledger, e: Event)
    requires Enabled(s, e)
    ensures Extends(s.rows, Next(s, e).rows)
  {
    hide Consumption, IsExpiryOrder;
    if e.CreateTask? {
      ExpiryOrderInTable(s.rows, e.order);
    }
  }

  lemma {:induction false} RunExtends(s: Ledger, run: seq<Event>)
    requires ValidRun(s, run)
    ensures Extends(s.rows, After(s, run).rows)
    decreases |run|
  {
    hide Enabled, Next;
    if run != [] {
      StepExtends(s, run[0]);
      RunExtends(Next(s, run[0]), run[1..]);
    }
  }

  /** Whatever happened since a consumption, failing its task gives every grant exactly what the
      consumption took from it, once: later failures with the same credit id change no balance. */
  lemma RefundInvertsConsume(s: Ledger, task: Task, now: int, order: seq<nat>, run: seq<Event>, taskId: nat)
    requires IsExpiryOrder(s.rows, order) && task.costCredits.Some? && task.costCredits.value > 0
    requires Consumption(s.rows, task.userId, task.costCredits.value, now, order).Ok?
    requires ValidRun(AfterCreateTask(s, task, now, order), run)
    ensures var created := AfterCreateTask(s, task, now, order);
      var id := |s.rows|;
      var later := After(created, run);
      var failed := AfterUpdateTask(later, taskId, Some(Failed), Some(id));
      && created.tasks[|s.tasks|].creditId == Some(id)
      && |created.rows| <= |later.rows| == |failed.rows|
      && (forall i :: 0 <= i < |s.rows| ==>
            failed.rows[i].remainingCredits - later.rows[i].remainingCredits
            == if later.rows[id].status == Active then s.rows[i].remainingCredits - created.rows[i].remainingCredits
              else 0)
      && AfterUpdateTask(failed, taskId, Some(Failed), Some(id)).rows == failed.rows
  {
    hide Consumption, IsExpiryOrder, ValidRun, After;
    ExpiryOrderInTable(s.rows, order);
    RunExtends(AfterCreateTask(s, task, now, order), run);
  }
}
