/** Safety of order payment under any interleaving of webhook deliveries, replays and stale reads. */
module OrderProofs {
  import opened Wrappers
  import opened CodeUnits
  import opened SafeIntegers
  import opened OrderPayments

  // ----- steps -----

  datatype Event =
    | CreateOrder(order: Order)
    | MarkCheckout(orderNo: Text, status: OrderStatus, provider: Option<Text>)
    | Checkout(snapshot: Order, session: Session, subscriptionNo: Text)
    | Payment(snapshot: Order, session: Session, subscriptionNo: Text)
    | Renewed(renewal: Renewal, session: Session, orderNo: Text)
    | WalletEntry(userId: Text, entryType: EntryType, amount: int)

  /** The columns no step changes. */
  predicate SameIdentity(a: Order, b: Order) {
    && a.orderNo == b.orderNo && a.userId == b.userId && a.amount == b.amount && a.currency == b.currency
    && a.paymentType == b.paymentType && a.creditsAmount == b.creditsAmount
  }

  /** A copy of an order of the table, read now or at any earlier time: its other columns may be stale. */
  predicate IsSnapshot(db: Db, snapshot: Order) {
    var found := FindOrder(db.orders, snapshot.orderNo);
    found.Some? && SameIdentity(snapshot, db.orders[found.value])
  }

  predicate IsFreshOrderNo(db: Db, orderNo: Text) {
    orderNo != [] && FindOrder(db.orders, orderNo) == None && !HasGrant(db.grants, orderNo)
  }

  predicate Enabled(db: Db, e: Event) {
    match e
    case CreateOrder(order) => order.status == Pending && IsFreshOrderNo(db, order.orderNo)
    case MarkCheckout(_, status, _) => status == Created || status == Completed
    case Checkout(snapshot, _, _) => IsSnapshot(db, snapshot)
    case Payment(snapshot, _, _) => IsSnapshot(db, snapshot)
    case Renewed(_, _, orderNo) => IsFreshOrderNo(db, orderNo)
    case WalletEntry(_, entryType, _) => entryType != Recharge
  }

  /** A handler either commits or throws and leaves the database as it was. */
  function Outcome(db: Db, e: Event): Result<Db> {
    match e
    case CreateOrder(order) => Ok(db.(orders := db.orders + [order]))
    case MarkCheckout(orderNo, status, provider) =>
      Ok(db.(orders := UpdateOrder(db.orders, orderNo, OrderUpdate(Some(status), provider, None))))
    case Checkout(snapshot, session, subscriptionNo) => CheckoutSuccess(db, snapshot, session, subscriptionNo)
    case Payment(snapshot, session, subscriptionNo) => PaymentSuccess(db, snapshot, session, subscriptionNo)
    case Renewed(renewal, session, orderNo) => SubscriptionRenewal(db, renewal, session, orderNo)
    case WalletEntry(userId, entryType, amount) =>
      AppendLedgerEntry(EnsureAccount(db, userId), userId, entryType, amount, None)
  }

  function Next(db: Db, e: Event): Db {
    match Outcome(db, e)
    case Ok(after) => after
    case Err => db
  }

  ghost predicate ValidRun(db: Db, run: seq<Event>)
    decreases |run|
  {
    run == [] || (Enabled(db, run[0]) && ValidRun(Next(db, run[0]), run[1..]))
  }

  ghost function After(db: Db, run: seq<Event>): Db
    decreases |run|
  {
    if run == [] then db else After(Next(db, run[0]), run[1..])
  }

  const EMPTY_DB := Db([], [], [], map[], [])

  // ----- the invariant -----

  function RechargeCount(ledger: seq<LedgerEntry>, orderNo: Text): nat {
    if ledger == [] then 0
    else
      var n := |ledger| - 1;
      RechargeCount(ledger[..n], orderNo) + (if IsRechargeOf(ledger[n], orderNo) then 1 else 0)
  }

  function EntryAmount(entry: LedgerEntry, userId: Text): int {
    if entry.userId == userId then entry.amountMicroUsd else 0
  }

  function UserTotal(ledger: seq<LedgerEntry>, userId: Text): int {
    if ledger == [] then 0
    else UserTotal(ledger[..|ledger| - 1], userId) + EntryAmount(ledger[|ledger| - 1], userId)
  }

  /** A recharge entry is of the order's amount, for the order's own user, and the order sells credits. */
  ghost predicate RechargeMatchesOrder(entry: LedgerEntry, orders: seq<Order>) {
    entry.entryType == Recharge ==>
      && entry.orderNo.Some?
      && var found := FindOrder(orders, entry.orderNo.value);
      && found.Some?
      && var o := orders[found.value];
      && entry.userId == o.userId && entry.amountMicroUsd == o.amount * MICRO_USD_PER_CENT > 0
      && ValueOrZero(o.creditsAmount) > 0
  }

  ghost predicate UniqueOrders(orders: seq<Order>) {
    && (forall i :: 0 <= i < |orders| ==> orders[i].orderNo != [])
    && (forall i, j :: 0 <= i < j < |orders| ==> orders[i].orderNo != orders[j].orderNo)
  }

  ghost predicate RechargesSound(db: Db) {
    && (forall orderNo :: RechargeCount(db.ledger, orderNo) <= 1)
    && (forall i :: 0 <= i < |db.ledger| ==> RechargeMatchesOrder(db.ledger[i], db.orders))
  }

  /** Every balance is the sum of the user's entries, and every entry recorded the balance it led to. */
  ghost predicate BalancesSound(db: Db) {
    && (forall u :: u in db.accounts ==> db.accounts[u] == UserTotal(db.ledger, u))
    && (forall u :: u !in db.accounts ==> UserTotal(db.ledger, u) == 0)
    && (forall i :: 0 <= i < |db.ledger| ==>
          db.ledger[i].balanceAfterMicroUsd == UserTotal(db.ledger[..i + 1], db.ledger[i].userId))
  }

  /** At most one grant for an order number; gifts carry no order number. */
  ghost predicate UniqueGrants(grants: seq<CreditGrant>) {
    forall i, j :: 0 <= i < j < |grants| && grants[i].orderNo != [] ==> grants[i].orderNo != grants[j].orderNo
  }

  /** Subscriptions are unique by provider id and provider, where both are known. */
  ghost predicate UniqueSubscriptions(subs: seq<Subscription>) {
    forall i, j :: 0 <= i < j < |subs| && subs[i].subscriptionId != [] && subs[i].paymentProvider != [] ==>
      subs[i].subscriptionId != subs[j].subscriptionId || subs[i].paymentProvider != subs[j].paymentProvider
  }

  ghost predicate Sound(db: Db) {
    && UniqueOrders(db.orders) && RechargesSound(db) && BalancesSound(db)
    && UniqueGrants(db.grants) && UniqueSubscriptions(db.subscriptions)
  }

  // ----- what one transaction can do -----

  lemma {:induction false} FindOrderIs(orders: seq<Order>, i: nat)
    requires UniqueOrders(orders) && i < |orders|
    ensures FindOrder(orders, orders[i].orderNo) == Some(i)
  {
    var n := |orders| - 1;
    if i < n {
      FindOrderIs(orders[..n], i);
    }
  }

  /** The orders differ at most in the mutable columns of one order. */
  ghost predicate KeepsIdentities(before: seq<Order>, after: seq<Order>) {
    && |before| <= |after|
    && forall i :: 0 <= i < |before| ==> SameIdentity(before[i], after[i])
  }

  lemma FoundAfter(before: seq<Order>, after: seq<Order>, orderNo: Text)
    requires KeepsIdentities(before, after) && UniqueOrders(after) && FindOrder(before, orderNo).Some?
    ensures FindOrder(after, orderNo) == FindOrder(before, orderNo)
  {
    FindOrderIs(after, FindOrder(before, orderNo).value);
  }

  lemma UpdateKeepsIdentities(orders: seq<Order>, orderNo: Text, u: OrderUpdate)
    requires UniqueOrders(orders)
    ensures KeepsIdentities(orders, UpdateOrder(orders, orderNo, u)) && UniqueOrders(UpdateOrder(orders, orderNo, u))
  {
    hide FindOrder;
  }

  lemma RechargesSurvive(db: Db, after: Db)
    requires RechargesSound(db) && after.ledger == db.ledger
    requires KeepsIdentities(db.orders, after.orders) && UniqueOrders(after.orders)
    ensures RechargesSound(after)
  {
    hide FindOrder, RechargeCount;
    forall i | 0 <= i < |after.ledger|
      ensures RechargeMatchesOrder(after.ledger[i], after.orders)
    {
      assert RechargeMatchesOrder(db.ledger[i], db.orders);
      if after.ledger[i].entryType == Recharge {
        FoundAfter(db.orders, after.orders, after.ledger[i].orderNo.value);
      }
    }
  }

  lemma {:induction false} NoRechargeCountsZero(ledger: seq<LedgerEntry>, orderNo: Text)
    ensures RechargeCount(ledger, orderNo) == 0 <==> !HasRecharge(ledger, orderNo)
  {
    if ledger != [] {
      var n := |ledger| - 1;
      NoRechargeCountsZero(ledger[..n], orderNo);
      if HasRecharge(ledger[..n], orderNo) {
        var i :| 0 <= i < n && IsRechargeOf(ledger[..n][i], orderNo);
        assert IsRechargeOf(ledger[i], orderNo);
      }
      if HasRecharge(ledger, orderNo) && !IsRechargeOf(ledger[n], orderNo) {
        var i :| 0 <= i < |ledger| && IsRechargeOf(ledger[i], orderNo);
        assert ledger[..n][i] == ledger[i];
      }
    }
  }

  lemma EntrySnoc(ledger: seq<LedgerEntry>, entry: LedgerEntry, orderNo: Text, userId: Text)
    ensures RechargeCount(ledger + [entry], orderNo)
         == RechargeCount(ledger, orderNo) + (if IsRechargeOf(entry, orderNo) then 1 else 0)
    ensures UserTotal(ledger + [entry], userId) == UserTotal(ledger, userId) + EntryAmount(entry, userId)
  {
    assert (ledger + [entry])[..|ledger|] == ledger;
  }

  lemma AppendKeepsBalances(db: Db, userId: Text, entryType: EntryType, amount: int, orderNo: Option<Text>)
    requires BalancesSound(db) && AppendLedgerEntry(db, userId, entryType, amount, orderNo).Ok?
    ensures BalancesSound(AppendLedgerEntry(db, userId, entryType, amount, orderNo).value)
  {
    hide UserTotal, IsSignOk;
    var after := AppendLedgerEntry(db, userId, entryType, amount, orderNo).value;
    var entry := after.ledger[|db.ledger|];
    forall u
      ensures UserTotal(after.ledger, u) == UserTotal(db.ledger, u) + EntryAmount(entry, u)
    {
      EntrySnoc(db.ledger, entry, [], u);
    }
    assert after.ledger[..|after.ledger|] == after.ledger;
    assert forall i {:trigger after.ledger[i]} :: 0 <= i < |db.ledger| ==> after.ledger[..i + 1] == db.ledger[..i + 1];
  }

  lemma OpenKeepsBalances(db: Db, userId: Text)
    requires BalancesSound(db)
    ensures BalancesSound(EnsureAccount(db, userId))
  {
    hide UserTotal;
  }

  lemma OtherEntryKeepsRecharges(db: Db, after: Db, entry: LedgerEntry)
    requires RechargesSound(db) && after.orders == db.orders && after.ledger == db.ledger + [entry]
    requires entry.entryType != Recharge
    ensures RechargesSound(after)
  {
    hide RechargeCount, FindOrder;
    forall orderNo
      ensures RechargeCount(after.ledger, orderNo) == RechargeCount(db.ledger, orderNo)
    {
      EntrySnoc(db.ledger, entry, orderNo, []);
    }
  }

  lemma NewRechargeKeepsRecharges(db: Db, after: Db, entry: LedgerEntry)
    requires RechargesSound(db) && after.orders == db.orders && after.ledger == db.ledger + [entry]
    requires entry.entryType == Recharge && RechargeMatchesOrder(entry, db.orders)
      && !HasRecharge(db.ledger, entry.orderNo.value)
    ensures RechargesSound(after)
  {
    hide RechargeCount, FindOrder, HasRecharge;
    NoRechargeCountsZero(db.ledger, entry.orderNo.value);
    forall orderNo
      ensures RechargeCount(after.ledger, orderNo) <= 1
    {
      EntrySnoc(db.ledger, entry, orderNo, []);
    }
  }

  /** What is known of a commit made for one order with that order's own recharge. */
  ghost predicate PaysSoundly(db: Db, after: Db, i: nat, withRecharge: bool)
    requires i < |db.orders|
  {
    var orderNo := db.orders[i].orderNo;
    && Sound(after) && KeepsIdentities(db.orders, after.orders) && |after.orders| == |db.orders|
      && after.grants == db.grants
    && (forall n :: n != orderNo ==> RechargeCount(after.ledger, n) == RechargeCount(db.ledger, n))
    && RechargeCount(db.ledger, orderNo) <= RechargeCount(after.ledger, orderNo)
    && (RechargeCount(after.ledger, orderNo) > RechargeCount(db.ledger, orderNo) ==>
          withRecharge && db.orders[i].status in {Created, Pending} && after.orders[i].status == Paid)
    && (db.orders[i].status != Paid && after.orders[i].status == Paid && withRecharge ==>
          RechargeCount(after.ledger, orderNo) == 1)
  }

  lemma InsertSubscriptionSound(db: Db, newSubscription: Option<Subscription>)
    requires Sound(db)
    ensures var after := InsertSubscription(db, newSubscription);
      Sound(after) && after.orders == db.orders && after.ledger == db.ledger && after.grants == db.grants
  {
    hide UniqueOrders, RechargeMatchesOrder, RechargeCount, UserTotal, UniqueGrants;
  }

  lemma UpdateOrderSound(db: Db, orderNo: Text, u: OrderUpdate)
    requires Sound(db)
    ensures var after := db.(orders := UpdateOrder(db.orders, orderNo, u));
      Sound(after) && KeepsIdentities(db.orders, after.orders) && |after.orders| == |db.orders|
  {
    hide RechargesSound, KeepsIdentities, UniqueOrders, UserTotal, UniqueGrants, UniqueSubscriptions;
    UpdateKeepsIdentities(db.orders, orderNo, u);
    RechargesSurvive(db, db.(orders := UpdateOrder(db.orders, orderNo, u)));
  }

  lemma InsertRechargeSound(db: Db, i: nat)
    requires Sound(db) && i < |db.orders| && ValueOrZero(db.orders[i].creditsAmount) > 0
    requires InsertRecharge(db, db.orders[i].orderNo, RechargeFor(db.orders[i])).Ok?
    ensures var after, orderNo :=
      InsertRecharge(db, db.orders[i].orderNo, RechargeFor(db.orders[i])).value, db.orders[i].orderNo;
      && Sound(after) && after.orders == db.orders && after.grants == db.grants
      && (forall n :: n != orderNo ==> RechargeCount(after.ledger, n) == RechargeCount(db.ledger, n))
      && RechargeCount(after.ledger, orderNo) == 1
  {
    hide UserTotal, FindOrder, RechargeCount, HasRecharge, UniqueOrders, UniqueGrants, UniqueSubscriptions,
         BalancesSound;
    var o := db.orders[i];
    var r := RechargeFor(o).value;
    var open := EnsureAccount(db, r.userId);
    OpenKeepsBalances(db, r.userId);
    NoRechargeCountsZero(db.ledger, o.orderNo);
    if !HasRecharge(open.ledger, o.orderNo) {
      FindOrderIs(db.orders, i);
      AppendKeepsBalances(open, r.userId, Recharge, r.amountMicroUsd, Some(o.orderNo));
      var after := AppendLedgerEntry(open, r.userId, Recharge, r.amountMicroUsd, Some(o.orderNo)).value;
      var entry := after.ledger[|db.ledger|];
      NewRechargeKeepsRecharges(open, after, entry);
      forall n
        ensures RechargeCount(after.ledger, n)
          == RechargeCount(db.ledger, n) + (if IsRechargeOf(entry, n) then 1 else 0)
      {
        EntrySnoc(db.ledger, entry, n, []);
      }
    }
  }

  /** The transaction that moves an order to PAID, called with the order's own recharge. */
  lemma PayingTransactionSound(db: Db, i: nat, transactionId: Option<Text>, newSubscription: Option<Subscription>)
    requires Sound(db) && i < |db.orders|
    requires UpdateOrderInTransaction(db, db.orders[i].orderNo, PaidUpdate(transactionId), newSubscription, None,
      RechargeFor(db.orders[i])).Ok?
    ensures PaysSoundly(db,
      UpdateOrderInTransaction(db, db.orders[i].orderNo, PaidUpdate(transactionId), newSubscription, None,
        RechargeFor(db.orders[i])).value,
      i, ValueOrZero(db.orders[i].creditsAmount) > 0)
  {
    hide FindOrder, RechargeCount, BalancesSound, RechargesSound, UniqueOrders, UniqueGrants, UniqueSubscriptions,
         InsertRecharge,
         InsertSubscription;
    var o, u := db.orders[i], PaidUpdate(transactionId);
    FindOrderIs(db.orders, i);
    var updated := db.(orders := UpdateOrder(db.orders, o.orderNo, u));
    UpdateOrderSound(db, o.orderNo, u);
    var subscribed := InsertSubscription(updated, newSubscription);
    InsertSubscriptionSound(updated, newSubscription);
    if RechargeFor(o).Some? {
      if PassesStatusGuard(o.status, u) {
        assert RechargeFor(subscribed.orders[i]) == RechargeFor(o);
        InsertRechargeSound(subscribed, i);
        CountAtMostOne(db, o.orderNo);
      }
    } else {
      NoRechargeInserted(subscribed, o.orderNo);
    }
  }

  lemma NoRechargeInserted(db: Db, orderNo: Text)
    ensures InsertRecharge(db, orderNo, None) == Ok(db)
  {
  }

  lemma CountAtMostOne(db: Db, orderNo: Text)
    requires RechargesSound(db)
    ensures RechargeCount(db.ledger, orderNo) <= 1
  {
  }

  // ----- every step keeps the invariant -----

  lemma SnapshotRecharge(db: Db, snapshot: Order) returns (i: nat)
    requires IsSnapshot(db, snapshot)
    ensures i < |db.orders| && db.orders[i].orderNo == snapshot.orderNo
      && RechargeFor(db.orders[i]) == RechargeFor(snapshot)
    ensures FindOrder(db.orders, snapshot.orderNo) == Some(i) && SameIdentity(snapshot, db.orders[i])
  {
    i := FindOrder(db.orders, snapshot.orderNo).value;
  }

  lemma FailingUpdatePays(db: Db, i: nat)
    requires Sound(db) && i < |db.orders|
    ensures PaysSoundly(db,
      db.(orders := UpdateOrder(db.orders, db.orders[i].orderNo, OrderUpdate(Some(Failed), None, None))),
                        i, ValueOrZero(db.orders[i].creditsAmount) > 0)
  {
    hide FindOrder, RechargeCount, BalancesSound, RechargesSound, UniqueOrders, UniqueGrants, UniqueSubscriptions;
    FindOrderIs(db.orders, i);
    UpdateOrderSound(db, db.orders[i].orderNo, OrderUpdate(Some(Failed), None, None));
  }

  lemma UnchangedPays(db: Db, i: nat)
    requires Sound(db) && i < |db.orders|
    ensures PaysSoundly(db, db, i, ValueOrZero(db.orders[i].creditsAmount) > 0)
  {
  }

  /** A checkout or payment delivery, on whatever snapshot it works. */
  lemma DeliverySound(db: Db, e: Event) returns (i: nat)
    requires Sound(db) && (e.Checkout? || e.Payment?) && IsSnapshot(db, e.snapshot)
    ensures i < |db.orders| && SameIdentity(e.snapshot, db.orders[i])
    ensures PaysSoundly(db, Next(db, e), i, ValueOrZero(e.snapshot.creditsAmount) > 0)
  {
    hide FindOrder, PaysSoundly, Sound, UpdateOrder, UpdateOrderInTransaction, SessionMatchesOrder, LacksSubscription;
    i := SnapshotRecharge(db, e.snapshot);
    UnchangedPays(db, i);
    FailingUpdatePays(db, i);
    var transactionId := if e.Checkout? then TransactionIdOf(e.session) else None;
    var sub := FirstSubscription(e.snapshot, e.session, e.subscriptionNo);
    if UpdateOrderInTransaction(db, db.orders[i].orderNo, PaidUpdate(transactionId), sub, None,
      RechargeFor(db.orders[i])).Ok? {
      PayingTransactionSound(db, i, transactionId, sub);
    }
  }

  lemma NewOrderSound(db: Db, order: Order)
    requires Sound(db) && order.orderNo != [] && FindOrder(db.orders, order.orderNo) == None
    ensures Sound(db.(orders := db.orders + [order])) && KeepsIdentities(db.orders, db.orders + [order])
  {
    hide RechargeCount, RechargesSound, UserTotal, UniqueGrants, UniqueSubscriptions;
    RechargesSurvive(db, db.(orders := db.orders + [order]));
  }

  lemma GrantsSound(db: Db, grant: CreditGrant)
    requires Sound(db) && !HasGrant(db.grants, grant.orderNo)
    ensures Sound(db.(grants := db.grants + [grant]))
  {
    hide RechargeMatchesOrder, RechargeCount, UserTotal, UniqueSubscriptions, UniqueOrders;
  }

  lemma PeriodSound(db: Db, subscriptionNo: Text, info: SubscriptionInfo)
    requires Sound(db)
    ensures Sound(db.(subscriptions := WithPeriod(db.subscriptions, subscriptionNo, info)))
  {
    hide UniqueOrders, RechargeMatchesOrder, RechargeCount, UserTotal, UniqueGrants;
  }

  lemma RenewalSound(db: Db, renewal: Renewal, session: Session, orderNo: Text)
    requires Sound(db) && IsFreshOrderNo(db, orderNo) && SubscriptionRenewal(db, renewal, session, orderNo).Ok?
    ensures var after := SubscriptionRenewal(db, renewal, session, orderNo).value;
      Sound(after) && KeepsIdentities(db.orders, after.orders) && after.ledger == db.ledger
  {
    hide FindOrder, FindTransaction, HasGrant, Sound, WithPeriod, KeepsIdentities;
    var newOrder := RenewalOrder(renewal, session, orderNo);
    NewOrderSound(db, newOrder);
    KeepsOwnIdentities(db.orders);
    var ordered := if ExistingOrder(db.orders, newOrder).Some? then db else db.(orders := db.orders + [newOrder]);
    var grant := RenewalGrant(renewal, orderNo);
    if grant.Some? {
      GrantsSound(ordered, grant.value);
    }
    var after := SubscriptionRenewal(db, renewal, session, orderNo).value;
    var granted := after.(subscriptions := db.subscriptions);
    assert granted == ordered || (grant.Some? && granted == ordered.(grants := ordered.grants + [grant.value]));
    PeriodSound(granted, renewal.subscriptionNo, session.subscriptionInfo.value);
  }

  lemma WalletEntrySound(db: Db, userId: Text, entryType: EntryType, amount: int)
    requires Sound(db) && entryType != Recharge
    requires AppendLedgerEntry(EnsureAccount(db, userId), userId, entryType, amount, None).Ok?
    ensures var after := AppendLedgerEntry(EnsureAccount(db, userId), userId, entryType, amount, None).value;
      Sound(after) && after.orders == db.orders && forall n ::
        RechargeCount(after.ledger, n) == RechargeCount(db.ledger, n)
  {
    hide RechargeCount, FindOrder, UserTotal, UniqueOrders, UniqueGrants, UniqueSubscriptions, BalancesSound,
         RechargesSound,
         IsSignOk;
    var open := EnsureAccount(db, userId);
    OpenKeepsBalances(db, userId);
    OpenKeepsRecharges(db, userId);
    AppendKeepsBalances(open, userId, entryType, amount, None);
    var after := AppendLedgerEntry(open, userId, entryType, amount, None).value;
    var entry := after.ledger[|db.ledger|];
    OtherEntryKeepsRecharges(open, after, entry);
    forall n
      ensures RechargeCount(after.ledger, n) == RechargeCount(db.ledger, n)
    {
      EntrySnoc(db.ledger, entry, n, []);
    }
  }

  lemma OpenKeepsRecharges(db: Db, userId: Text)
    requires RechargesSound(db)
    ensures RechargesSound(EnsureAccount(db, userId))
  {
    hide RechargeCount, RechargeMatchesOrder;
  }

  /** Every step keeps the invariant and the identity of every order. */
  lemma StepSound(db: Db, e: Event)
    requires Sound(db) && Enabled(db, e)
    ensures Sound(Next(db, e)) && KeepsIdentities(db.orders, Next(db, e).orders)
  {
    hide FindOrder, Sound, KeepsIdentities, HasGrant, CheckoutSuccess, PaymentSuccess, SubscriptionRenewal,
         AppendLedgerEntry,
         IsSnapshot, UpdateOrder;
    KeepsOwnIdentities(db.orders);
    match e
    case CreateOrder(order) => NewOrderSound(db, order);
    case MarkCheckout(orderNo, status, provider) =>
      UpdateOrderSound(db, orderNo, OrderUpdate(Some(status), provider, None));
    case Checkout(_, _, _) => var _ := DeliverySound(db, e);
    case Payment(_, _, _) => var _ := DeliverySound(db, e);
    case Renewed(renewal, session, orderNo) =>
      if SubscriptionRenewal(db, renewal, session, orderNo).Ok? {
        RenewalSound(db, renewal, session, orderNo);
      }
    case WalletEntry(userId, entryType, amount) =>
      if AppendLedgerEntry(EnsureAccount(db, userId), userId, entryType, amount, None).Ok? {
        WalletEntrySound(db, userId, entryType, amount);
      }
  }

  lemma KeepsOwnIdentities(orders: seq<Order>)
    ensures KeepsIdentities(orders, orders)
  {
  }

  lemma KeepsTransitively(a: seq<Order>, b: seq<Order>, c: seq<Order>)
    requires KeepsIdentities(a, b) && KeepsIdentities(b, c)
    ensures KeepsIdentities(a, c)
  {
  }

  /** Over every run, in any interleaving: at most one recharge an order, of its amount and for its user,
      balances that are the sums of their entries, and unique grants and subscriptions. */
  lemma {:induction false} RunSound(db: Db, run: seq<Event>)
    requires Sound(db) && ValidRun(db, run)
    ensures Sound(After(db, run)) && KeepsIdentities(db.orders, After(db, run).orders)
    decreases |run|
  {
    hide Sound, Enabled, Next, KeepsIdentities;
    if run == [] {
      KeepsOwnIdentities(db.orders);
    } else {
      var next := Next(db, run[0]);
      StepSound(db, run[0]);
      RunSound(next, run[1..]);
      KeepsTransitively(db.orders, next.orders, After(next, run[1..]).orders);
    }
  }

  /** In every reachable database each order has at most one recharge, and a recharge is of the order's amount,
      for the order's user, on an order that sells credits. */
  lemma EveryRunRechargesOnce(run: seq<Event>, i: nat, k: nat)
    requires ValidRun(EMPTY_DB, run) && i < |After(EMPTY_DB, run).orders| && k < |After(EMPTY_DB, run).ledger|
    ensures var db := After(EMPTY_DB, run);
      var order, entry := db.orders[i], db.ledger[k];
      && RechargeCount(db.ledger, order.orderNo) <= 1
      && (IsRechargeOf(entry, order.orderNo) ==>
            entry.userId == order.userId && entry.amountMicroUsd == order.amount * MICRO_USD_PER_CENT > 0
            && ValueOrZero(order.creditsAmount) > 0)
  {
    var db := After(EMPTY_DB, run);
    RunSound(EMPTY_DB, run);
    FindOrderIs(db.orders, i);
    assert RechargeMatchesOrder(db.ledger[k], db.orders);
  }

  /** An order read at any moment of a run is still a snapshot at its end, so the deliveries of a run may
      carry reads from any earlier moment. */
  lemma StaleReadIsSnapshot(db: Db, run: seq<Event>, i: nat)
    requires Sound(db) && ValidRun(db, run) && i < |db.orders|
    ensures IsSnapshot(After(db, run), db.orders[i])
  {
    hide ValidRun, After, FindOrder, RechargesSound, BalancesSound, UniqueGrants, UniqueSubscriptions;
    RunSound(db, run);
    FindOrderIs(After(db, run).orders, i);
  }

  // ----- when a recharge appears -----

  /** A recharge appears for an order only in a delivery for that order which commits it from pending or
      created to PAID; and a delivery that commits an order with credits to PAID leaves it exactly one. */
  lemma RechargeIffPaid(db: Db, e: Event, i: nat)
    requires Sound(db) && Enabled(db, e) && i < |db.orders|
    ensures var after, orderNo := Next(db, e), db.orders[i].orderNo;
      && i < |after.orders|
      && (RechargeCount(after.ledger, orderNo) != RechargeCount(db.ledger, orderNo) ==>
            && (e.Checkout? || e.Payment?) && e.snapshot.orderNo == orderNo
              && ValueOrZero(db.orders[i].creditsAmount) > 0
            && db.orders[i].status in {Created, Pending} && after.orders[i].status == Paid
            && RechargeCount(db.ledger, orderNo) == 0 && RechargeCount(after.ledger, orderNo) == 1)
      && (((e.Checkout? || e.Payment?) && db.orders[i].status != Paid && after.orders[i].status == Paid
           && ValueOrZero(db.orders[i].creditsAmount) > 0)
          ==> RechargeCount(after.ledger, orderNo) == 1)
  {
    hide FindOrder, RechargeCount, BalancesSound, UniqueOrders, UniqueGrants, UniqueSubscriptions, CheckoutSuccess,
         PaymentSuccess,
         HasGrant, AppendLedgerEntry, RechargeMatchesOrder, UpdateOrder;
    StepSound(db, e);
    CountAtMostOne(db, db.orders[i].orderNo);
    CountAtMostOne(Next(db, e), db.orders[i].orderNo);
    match e
    case CreateOrder(_) =>
    case MarkCheckout(_, _, _) =>
    case Checkout(_, _, _) => DeliveryCounts(db, e, i);
    case Payment(_, _, _) => DeliveryCounts(db, e, i);
    case Renewed(renewal, session, orderNo) =>
      if SubscriptionRenewal(db, renewal, session, orderNo).Ok? {
        RenewalSound(db, renewal, session, orderNo);
      }
    case WalletEntry(userId, entryType, amount) =>
      if AppendLedgerEntry(EnsureAccount(db, userId), userId, entryType, amount, None).Ok? {
        WalletEntrySound(db, userId, entryType, amount);
      }
  }

  lemma DeliveryCounts(db: Db, e: Event, i: nat)
    requires Sound(db) && (e.Checkout? || e.Payment?) && IsSnapshot(db, e.snapshot) && i < |db.orders|
    ensures var after, orderNo := Next(db, e), db.orders[i].orderNo;
      && i < |after.orders|
      && RechargeCount(db.ledger, orderNo) <= RechargeCount(after.ledger, orderNo)
      && (RechargeCount(after.ledger, orderNo) > RechargeCount(db.ledger, orderNo) ==>
            && e.snapshot.orderNo == orderNo && ValueOrZero(db.orders[i].creditsAmount) > 0
            && db.orders[i].status in {Created, Pending} && after.orders[i].status == Paid)
      && ((db.orders[i].status != Paid && after.orders[i].status == Paid && ValueOrZero(db.orders[i].creditsAmount) > 0
           && e.snapshot.orderNo == orderNo)
          ==> RechargeCount(after.ledger, orderNo) == 1)
      && (e.snapshot.orderNo != orderNo ==> after.orders[i] == db.orders[i])
  {
    hide FindOrder, RechargeCount, RechargesSound, BalancesSound, UniqueGrants, UniqueSubscriptions, CheckoutSuccess,
         PaymentSuccess;
    var j := DeliverySound(db, e);
    DeliveryTouchesOneOrder(db, e, i);
  }

  lemma TransactionTouchesOneOrder(
    db: Db, orderNo: Text, u: OrderUpdate, newSubscription: Option<Subscription>, recharge: Option<WalletRecharge>,
      i: nat)
    requires i < |db.orders| && UpdateOrderInTransaction(db, orderNo, u, newSubscription, None, recharge).Ok?
    ensures var after := UpdateOrderInTransaction(db, orderNo, u, newSubscription, None, recharge).value;
      && |after.orders| == |db.orders| && after.grants == db.grants
      && (db.orders[i].orderNo != orderNo ==> after.orders[i] == db.orders[i])
      && (db.orders[i].status == Paid && u.status == Some(Paid) ==> after.orders[i].status == Paid)
      && SameTransaction(db.orders[i], after.orders[i], u)
  {
    hide FindOrder, HasSubscription, HasRecharge, IsSignOk;
  }

  /** The update leaves the provider alone and writes no transaction id but its own. */
  ghost predicate SameTransaction(before: Order, after: Order, u: OrderUpdate) {
    && (u.paymentProvider == None ==> after.paymentProvider == before.paymentProvider)
    && (after.transactionId == before.transactionId
      || (u.transactionId.Some? && after.transactionId == u.transactionId))
  }

  /** What a delivery can do to one order: nothing, the paying transaction or the failing update. */
  lemma DeliveryTouchesOneOrder(db: Db, e: Event, i: nat)
    requires (e.Checkout? || e.Payment?) && i < |db.orders|
    ensures var after := Next(db, e);
      && |after.orders| == |db.orders| && after.grants == db.grants
      && (db.orders[i].orderNo != e.snapshot.orderNo ==> after.orders[i] == db.orders[i])
      && after.orders[i].paymentProvider == db.orders[i].paymentProvider
      && (after.orders[i].transactionId == db.orders[i].transactionId
          || (e.Checkout? && TransactionIdOf(e.session).Some?
            && after.orders[i].transactionId == TransactionIdOf(e.session)))
  {
    hide UpdateOrderInTransaction, FindOrder, SessionMatchesOrder, LacksSubscription;
    var id := if e.Checkout? then TransactionIdOf(e.session) else None;
    var sub := FirstSubscription(e.snapshot, e.session, e.subscriptionNo);
    if UpdateOrderInTransaction(db, e.snapshot.orderNo, PaidUpdate(id), sub, None, RechargeFor(e.snapshot)).Ok? {
      TransactionTouchesOneOrder(db, e.snapshot.orderNo, PaidUpdate(id), sub, RechargeFor(e.snapshot), i);
    }
  }

  // ----- exactly what a delivery does to an order -----

  /** There is no recharge to insert, it is there already, or its amount is one the ledger takes. */
  predicate CanRecharge(db: Db, order: Order) {
    || RechargeFor(order) == None || HasRecharge(db.ledger, order.orderNo)
    || 0 < order.amount * MICRO_USD_PER_CENT <= MAX_SAFE_INTEGER
  }

  lemma RechargeInsertable(db: Db, order: Order)
    ensures InsertRecharge(db, order.orderNo, RechargeFor(order)).Ok? <==> CanRecharge(db, order)
  {
    hide HasRecharge;
  }

  /** The handler goes on to the paying transaction. */
  predicate AsksToPay(e: Event)
    requires e.Checkout? || e.Payment?
  {
    && e.session.paymentStatus == Some(Success) && !LacksSubscription(e.snapshot, e.session)
    && if e.Checkout? then e.snapshot.status in {Created, Pending} && SessionMatchesOrder(e.snapshot, e.session)
       else e.snapshot.status != Paid
  }

  /** The delivery writes PAID on the order: under the status guard, except for an order that brings neither a
      subscription nor a recharge, which is written whatever its status. */
  predicate PaysOrder(db: Db, e: Event, i: nat)
    requires (e.Checkout? || e.Payment?) && i < |db.orders|
  {
    var order := db.orders[i];
    && e.snapshot.orderNo == order.orderNo && AsksToPay(e)
    && ((e.session.subscriptionInfo == None && RechargeFor(order) == None)
        || (order.status in {Created, Pending} && CanRecharge(db, order)))
  }

  /** The delivery writes FAILED on the order, whatever its status. */
  predicate FailsOrder(e: Event, orderNo: Text) {
    && e.Checkout? && e.snapshot.orderNo == orderNo && e.snapshot.status in {Created, Pending}
    && !LacksSubscription(e.snapshot, e.session) && e.session.paymentStatus in {Some(PaymentFailed), Some(Canceled)}
  }

  /** The transaction id that a paying delivery records: checkout only. */
  function RecordedId(e: Event): Option<Text> {
    if e.Checkout? then TransactionIdOf(e.session) else None
  }

  function AfterDelivery(db: Db, e: Event, i: nat): Order
    requires (e.Checkout? || e.Payment?) && i < |db.orders|
  {
    var order := db.orders[i];
    if PaysOrder(db, e, i) then Updated(order, PaidUpdate(RecordedId(e)))
    else if FailsOrder(e, order.orderNo) then Updated(order, OrderUpdate(Some(Failed), None, None))
    else order
  }

  lemma OrderNumbered(db: Db, i: nat)
    requires Sound(db) && i < |db.orders|
    ensures db.orders[i].orderNo != [] && FindOrder(db.orders, db.orders[i].orderNo) == Some(i)
  {
    FindOrderIs(db.orders, i);
  }

  /** The paying transaction of an order commits its update and its recharge together, or changes nothing. */
  lemma TransactionOutcome(db: Db, i: nat, id: Option<Text>, sub: Option<Subscription>)
    requires Sound(db) && i < |db.orders|
    ensures var order := db.orders[i];
      var r := UpdateOrderInTransaction(db, order.orderNo, PaidUpdate(id), sub, None, RechargeFor(order));
      if (sub == None && RechargeFor(order) == None)
        || (order.status in {Created, Pending} && CanRecharge(db, order)) then
        && r.Ok? && r.value.orders == db.orders[i := Updated(order, PaidUpdate(id))]
        && RechargeCount(r.value.ledger, order.orderNo) == if RechargeFor(order).Some? then 1
          else RechargeCount(db.ledger, order.orderNo)
      else r == Err || r == Ok(db)
  {
    hide FindOrder, RechargeCount, BalancesSound, RechargesSound, UniqueOrders, UniqueGrants, UniqueSubscriptions,
         InsertRecharge,
         InsertSubscription, HasRecharge;
    var order, u := db.orders[i], PaidUpdate(id);
    OrderNumbered(db, i);
    UpdateOrderSound(db, order.orderNo, u);
    var updated := db.(orders := UpdateOrder(db.orders, order.orderNo, u));
    InsertSubscriptionSound(updated, sub);
    var subscribed := InsertSubscription(updated, sub);
    RechargeInsertable(subscribed, order);
    NoRechargeInserted(subscribed, order.orderNo);
    if RechargeFor(order).Some? && CanRecharge(db, order) {
      assert RechargeFor(subscribed.orders[i]) == RechargeFor(order);
      InsertRechargeSound(subscribed, i);
    }
  }

  /** A delivery for another order leaves this one and its recharges alone. */
  lemma OtherOrderUntouched(db: Db, e: Event, i: nat)
    requires Sound(db) && (e.Checkout? || e.Payment?) && IsSnapshot(db, e.snapshot) && i < |db.orders|
    requires e.snapshot.orderNo != db.orders[i].orderNo
    ensures var after := Next(db, e);
      && |after.orders| == |db.orders| && after.orders[i] == db.orders[i]
      && RechargeCount(after.ledger, db.orders[i].orderNo) == RechargeCount(db.ledger, db.orders[i].orderNo)
  {
    hide Next, FindOrder, RechargeCount;
    var j := DeliverySound(db, e);
    DeliveryTouchesOneOrder(db, e, i);
  }

  lemma UnpaidSessionMatches(order: Order, session: Session)
    ensures session.paymentStatus != Some(Success) ==> SessionMatchesOrder(order, session)
  {
  }

  /** Exactly what a checkout or payment delivery does to an order and its recharges. */
  lemma DeliveryOutcome(db: Db, e: Event, i: nat)
    requires Sound(db) && (e.Checkout? || e.Payment?) && IsSnapshot(db, e.snapshot) && i < |db.orders|
    ensures var order, after := db.orders[i], Next(db, e);
      && |after.orders| == |db.orders| && after.orders[i] == AfterDelivery(db, e, i)
      && RechargeCount(after.ledger, order.orderNo)
         == if PaysOrder(db, e, i) && RechargeFor(order).Some? then 1 else RechargeCount(db.ledger, order.orderNo)
  {
    hide FindOrder, RechargeCount, Sound, UpdateOrderInTransaction, HasRecharge, CanRecharge, LacksSubscription,
         SessionMatchesOrder;
    var order := db.orders[i];
    if e.snapshot.orderNo != order.orderNo {
      OtherOrderUntouched(db, e, i);
    } else {
      OrderNumbered(db, i);
      var j := SnapshotRecharge(db, e.snapshot);
      assert j == i;
      UnpaidSessionMatches(e.snapshot, e.session);
      TransactionOutcome(db, i, RecordedId(e), FirstSubscription(e.snapshot, e.session, e.subscriptionNo));
    }
  }

  lemma SoundOrdersUnique(db: Db)
    requires Sound(db)
    ensures UniqueOrders(db.orders) && RechargesSound(db)
  {
  }

  /** A delivery adds a recharge for an order exactly when it asks to pay that order, the order is still pending
      or created and sells credits, and its recharge is new and of an amount the ledger takes. */
  lemma RechargeExactly(db: Db, e: Event, i: nat)
    requires Sound(db) && (e.Checkout? || e.Payment?) && IsSnapshot(db, e.snapshot) && i < |db.orders|
    ensures var order := db.orders[i];
      RechargeCount(Next(db, e).ledger, order.orderNo) != RechargeCount(db.ledger, order.orderNo)
      <==> e.snapshot.orderNo == order.orderNo && AsksToPay(e)
           && order.status in {Created, Pending} && !HasRecharge(db.ledger, order.orderNo)
           && ValueOrZero(order.creditsAmount) > 0 && 0 < order.amount * MICRO_USD_PER_CENT <= MAX_SAFE_INTEGER
  {
    hide FindOrder, RechargeCount, Next, Sound, AsksToPay, HasRecharge, AfterDelivery;
    DeliveryOutcome(db, e, i);
    NoRechargeCountsZero(db.ledger, db.orders[i].orderNo);
    SoundOrdersUnique(db);
    CountAtMostOne(db, db.orders[i].orderNo);
  }

  /** The session reports an amount that, with the discount, covers the order, in the order's currency. */
  predicate Covers(session: Session, order: Order) {
    session.paymentInfo.Some? &&
    var info := session.paymentInfo.value;
    && info.paymentAmount.Some? && info.paymentAmount.value + ValueOrZero(info.discountAmount) >= order.amount
    && (info.paymentCurrency == [] || order.currency == [] || Lower(info.paymentCurrency) == Lower(order.currency))
  }

  predicate ReportsAmount(session: Session) {
    session.paymentInfo.Some? && session.paymentInfo.value.paymentAmount.Some?
  }

  /** A recharge that a checkout delivery creates for an order that is no first subscription payment is covered by
      what the provider reported exactly when the provider reported an amount. */
  lemma CheckoutRechargeCovered(db: Db, snapshot: Order, session: Session, subscriptionNo: Text)
    requires Sound(db) && IsSnapshot(db, snapshot) && snapshot.paymentType != Some(Subscribe)
    requires var after := Next(db, Checkout(snapshot, session, subscriptionNo));
      RechargeCount(after.ledger, snapshot.orderNo) != RechargeCount(db.ledger, snapshot.orderNo)
    ensures session.paymentStatus == Some(Success)
    ensures Covers(session, db.orders[FindOrder(db.orders, snapshot.orderNo).value]) <==> ReportsAmount(session)
  {
    hide FindOrder, RechargeCount, Next, Sound, LacksSubscription, Lower;
    var i := SnapshotRecharge(db, snapshot);
    RechargeExactly(db, Checkout(snapshot, session, subscriptionNo), i);
  }

  /** A delivery creates a recharge that is not covered exactly when it creates one and is a checkout of a first
      subscription payment or without a reported amount, or a payment, whose session is never compared. */
  lemma UncoveredRechargeExactly(db: Db, e: Event, i: nat)
    requires Sound(db) && (e.Checkout? || e.Payment?) && IsSnapshot(db, e.snapshot) && i < |db.orders|
    ensures var order := db.orders[i];
      RechargeCount(Next(db, e).ledger, order.orderNo) != RechargeCount(db.ledger, order.orderNo)
        && !Covers(e.session, order)
      <==> e.snapshot.orderNo == order.orderNo && AsksToPay(e)
           && order.status in {Created, Pending} && !HasRecharge(db.ledger, order.orderNo)
           && ValueOrZero(order.creditsAmount) > 0 && 0 < order.amount * MICRO_USD_PER_CENT <= MAX_SAFE_INTEGER
           && (!ReportsAmount(e.session)
               || ((e.Payment? || order.paymentType == Some(Subscribe)) && !Covers(e.session, order)))
  {
    hide FindOrder, RechargeCount, Next, Sound, LacksSubscription, Lower, HasRecharge;
    RechargeExactly(db, e, i);
    var _ := SnapshotRecharge(db, e.snapshot);
    SoundOrdersUnique(db);
    FindOrderIs(db.orders, i);
  }

  // ----- PAID can be left again -----

  /** Exactly what takes an order out of PAID: the checkout page writing its status, or a failed or
      canceled session delivered with a read from before the payment. */
  lemma LeavesPaidExactly(db: Db, e: Event, i: nat)
    requires Sound(db) && Enabled(db, e) && i < |db.orders| && db.orders[i].status == Paid
    ensures i < |Next(db, e).orders|
    ensures Next(db, e).orders[i].status != Paid <==>
      || (e.MarkCheckout? && e.orderNo == db.orders[i].orderNo)
      || (e.Checkout? && e.snapshot.orderNo == db.orders[i].orderNo && e.snapshot.status in {Created, Pending}
          && !LacksSubscription(e.snapshot, e.session)
            && e.session.paymentStatus in {Some(PaymentFailed), Some(Canceled)})
  {
    hide FindOrder, RechargesSound, BalancesSound, UniqueGrants, UniqueSubscriptions, UpdateOrderInTransaction,
         LacksSubscription,
         HasGrant, FindTransaction, IsSignOk;
    FindOrderIs(db.orders, i);
    if e.Checkout? || e.Payment? {
      var id := if e.Checkout? then TransactionIdOf(e.session) else None;
      var sub := FirstSubscription(e.snapshot, e.session, e.subscriptionNo);
      if UpdateOrderInTransaction(db, e.snapshot.orderNo, PaidUpdate(id), sub, None, RechargeFor(e.snapshot)).Ok? {
        TransactionTouchesOneOrder(db, e.snapshot.orderNo, PaidUpdate(id), sub, RechargeFor(e.snapshot), i);
      }
    }
  }
}
