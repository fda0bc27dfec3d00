/** What the payment handlers commit, stated on the rows of the tables as they stand: when a session may pay an
    order, and every column that a delivery, a renewal or a wallet entry leaves behind. */
module PaymentMeaning {
  import opened Wrappers
  import opened CodeUnits
  import opened OrderPayments
  import opened OrderProofs

  // ----- when a session may pay an order -----

  /** The same code unit, or the same ASCII letter in another case. */
  ghost predicate SameUnit(a: CodeUnit, b: CodeUnit) {
    a == b || (0x41 <= a <= 0x5A && b == a + 0x20) || (0x41 <= b <= 0x5A && a == b + 0x20)
  }

  ghost predicate SameCurrency(a: Text, b: Text) {
    |a| == |b| && forall i :: 0 <= i < |a| ==> SameUnit(a[i], b[i])
  }

  /** The paid amount and the discount cover the order, if the session reports an amount. */
  ghost predicate IsCovered(order: Order, info: PaymentInfo) {
    info.paymentAmount.Some? ==>
      info.paymentAmount.value + (if info.discountAmount.Some? then info.discountAmount.value else 0) >= order.amount
  }

  /** What a succeeded session must report to pay an order at checkout: for a first subscription payment the
      subscription, for any other order nothing that contradicts the order. */
  ghost predicate MayPay(order: Order, session: Session) {
    if order.paymentType == Some(Subscribe) then session.subscriptionId != [] && session.subscriptionInfo.Some?
    else
      session.paymentInfo == None ||
      var info := session.paymentInfo.value;
      && (info.paymentCurrency == [] || order.currency == [] || SameCurrency(info.paymentCurrency, order.currency))
      && IsCovered(order, info)
  }

  lemma CurrencyExactly(a: Text, b: Text)
    ensures Lower(a) == Lower(b) <==> SameCurrency(a, b)
  {
    if Lower(a) == Lower(b) {
      assert |a| == |Lower(a)| == |b|;
      forall i | 0 <= i < |a|
        ensures SameUnit(a[i], b[i])
      {
        assert Lower(a)[i] == Lower(b)[i];
      }
    }
  }

  lemma MatchExactly(order: Order, session: Session)
    requires session.paymentStatus == Some(Success)
    ensures SessionMatchesOrder(order, session) && !LacksSubscription(order, session) <==> MayPay(order, session)
  {
    hide Lower, SameCurrency;
    if session.paymentInfo.Some? {
      CurrencyExactly(session.paymentInfo.value.paymentCurrency, order.currency);
    }
  }

  /** A delivery asks to pay its order exactly when the session succeeded and, at checkout, the order was read as
      pending or created and the session may pay it; a payment notice needs an unpaid order and, for a first
      subscription payment, the subscription. */
  lemma AsksToPayExactly(e: Event)
    requires e.Checkout? || e.Payment?
    ensures AsksToPay(e) <==>
      && e.session.paymentStatus == Some(Success)
      && (e.Checkout? ==> e.snapshot.status in {Created, Pending} && MayPay(e.snapshot, e.session))
      && (e.Payment? ==> && e.snapshot.status != Paid
                         && (e.snapshot.paymentType == Some(Subscribe) ==>
                               e.session.subscriptionId != [] && e.session.subscriptionInfo.Some?))
  {
    hide SessionMatchesOrder, MayPay;
    if e.session.paymentStatus == Some(Success) {
      MatchExactly(e.snapshot, e.session);
    }
  }

  // ----- what the paying transaction commits -----

  ghost predicate SellsCredits(order: Order) {
    order.creditsAmount.Some? && order.creditsAmount.value > 0
  }

  ghost predicate IsRecharged(ledger: seq<LedgerEntry>, orderNo: Text) {
    exists k :: 0 <= k < |ledger| && ledger[k].entryType == Recharge && ledger[k].orderNo == Some(orderNo)
  }

  /** One order is changed, and it is left as `order`. */
  ghost predicate WritesOrder(db: Db, after: Db, i: nat, order: Order)
    requires i < |db.orders|
  {
    && |after.orders| == |db.orders|
    && after.orders[i] == order
    && forall k :: 0 <= k < |db.orders| && k != i ==> after.orders[k] == db.orders[k]
  }

  /** The subscription that the session reports is added, unless the table has it. */
  ghost predicate AddsSubscription(db: Db, after: Db, order: Order, session: Session, subscriptionNo: Text) {
    match session.subscriptionInfo
    case None => after.subscriptions == db.subscriptions
    case Some(info) =>
      var known := info.subscriptionId != [] && order.paymentProvider != [] &&
        exists k :: 0 <= k < |db.subscriptions| && db.subscriptions[k].subscriptionId == info.subscriptionId
                    && db.subscriptions[k].paymentProvider == order.paymentProvider;
      after.subscriptions == if known then db.subscriptions else
        db.subscriptions + [Subscription(subscriptionNo, order.userId, info.subscriptionId, order.paymentProvider,
                                         info.currentPeriodStart, info.currentPeriodEnd)]
  }

  /** An order that sells credits recharges the wallet of its user by its amount, in micro-dollars, once. */
  ghost predicate AddsRecharge(db: Db, after: Db, order: Order) {
    var balance := if order.userId in db.accounts then db.accounts[order.userId] else 0;
    var amount := order.amount * 10_000;
    if !SellsCredits(order) then after.ledger == db.ledger && after.accounts == db.accounts
    else if IsRecharged(db.ledger, order.orderNo) then
      after.ledger == db.ledger && after.accounts == db.accounts[order.userId := balance]
    else
      && after.accounts == db.accounts[order.userId := balance + amount]
      && after.ledger
         == db.ledger + [LedgerEntry(order.userId, Recharge, amount, balance + amount, Some(order.orderNo))]
  }

  /** The order is paid, under the transaction id if there is one, with its subscription and its recharge. */
  ghost predicate IsPaid(db: Db, after: Db, i: nat, order: Order, session: Session, subscriptionNo: Text,
    id: Option<Text>)
    requires i < |db.orders|
  {
    var row := db.orders[i];
    && WritesOrder(db, after, i, row.(status := Paid, transactionId := if id.Some? then id else row.transactionId))
    && after.grants == db.grants
    && AddsSubscription(db, after, order, session, subscriptionNo)
    && AddsRecharge(db, after, order)
  }

  /** No recharge is due, or it is there already, or its amount is positive and a safe integer. */
  ghost predicate CanBeRecharged(db: Db, order: Order) {
    || !SellsCredits(order)
    || IsRecharged(db.ledger, order.orderNo)
    || 0 < order.amount * 10_000 <= 9_007_199_254_740_991
  }

  /** What the paying transaction leaves: an order that brings neither a subscription nor a recharge is paid
      whatever its status; any other is paid while it is pending or created, and left alone otherwise. */
  ghost predicate PaysAs(db: Db, i: nat, order: Order, session: Session, subscriptionNo: Text, id: Option<Text>,
    outcome: Result<Db>)
    requires i < |db.orders|
  {
    if session.subscriptionInfo == None && !SellsCredits(order) then
      outcome.Ok? && IsPaid(db, outcome.value, i, order, session, subscriptionNo, id)
    else if db.orders[i].status !in {Created, Pending} then outcome == Ok(db)
    else if !CanBeRecharged(db, order) then outcome == Err
    else outcome.Ok? && IsPaid(db, outcome.value, i, order, session, subscriptionNo, id)
  }

  lemma RechargedExactly(ledger: seq<LedgerEntry>, orderNo: Text)
    ensures HasRecharge(ledger, orderNo) <==> IsRecharged(ledger, orderNo)
  {
    if HasRecharge(ledger, orderNo) {
      var k :| 0 <= k < |ledger| && IsRechargeOf(ledger[k], orderNo);
      assert ledger[k].entryType == Recharge && ledger[k].orderNo == Some(orderNo);
    }
    if IsRecharged(ledger, orderNo) {
      var k :| 0 <= k < |ledger| && ledger[k].entryType == Recharge && ledger[k].orderNo == Some(orderNo);
      assert IsRechargeOf(ledger[k], orderNo);
    }
  }

  lemma SubscriptionAdded(db: Db, order: Order, session: Session, subscriptionNo: Text)
    ensures var after := InsertSubscription(db, FirstSubscription(order, session, subscriptionNo));
      && AddsSubscription(db, after, order, session, subscriptionNo)
      && after == db.(subscriptions := after.subscriptions)
  {
  }

  lemma RechargeAdded(db: Db, order: Order)
    ensures var r := InsertRecharge(db, order.orderNo, RechargeFor(order));
      && (r.Ok? <==> CanBeRecharged(db, order))
      && (r.Ok? ==> AddsRecharge(db, r.value, order)
                    && r.value == db.(accounts := r.value.accounts, ledger := r.value.ledger))
  {
    hide HasRecharge, IsRecharged;
    RechargedExactly(db.ledger, order.orderNo);
    var balance := if order.userId in db.accounts then db.accounts[order.userId] else 0;
    assert order.userId in db.accounts ==> db.accounts == db.accounts[order.userId := balance];
  }

  lemma OrderWritten(db: Db, i: nat, orderNo: Text, u: OrderUpdate)
    requires UniqueOrders(db.orders) && i < |db.orders| && db.orders[i].orderNo == orderNo
    ensures FindOrder(db.orders, orderNo) == Some(i)
    ensures UpdateOrder(db.orders, orderNo, u) == db.orders[i := Updated(db.orders[i], u)]
  {
    hide FindOrder;
    FindOrderIs(db.orders, i);
  }

  lemma TransactionExactly(db: Db, i: nat, order: Order, session: Session, subscriptionNo: Text, id: Option<Text>)
    requires UniqueOrders(db.orders) && i < |db.orders| && db.orders[i].orderNo == order.orderNo
    ensures PaysAs(db, i, order, session, subscriptionNo, id,
      UpdateOrderInTransaction(db, order.orderNo, PaidUpdate(id), FirstSubscription(order, session, subscriptionNo),
        None,
        RechargeFor(order)))
  {
    hide FindOrder, UpdateOrder, InsertRecharge, InsertSubscription, HasRecharge, IsRecharged, CanBeRecharged,
         AddsSubscription, AddsRecharge;
    var u := PaidUpdate(id);
    OrderWritten(db, i, order.orderNo, u);
    var updated := db.(orders := UpdateOrder(db.orders, order.orderNo, u));
    SubscriptionAdded(updated, order, session, subscriptionNo);
    var subscribed := InsertSubscription(updated, FirstSubscription(order, session, subscriptionNo));
    RechargeAdded(subscribed, order);
    SameTables(db, updated, subscribed, order, session, subscriptionNo);
    if session.subscriptionInfo == None && !SellsCredits(order) {
      NothingAdded(db, updated, order, session, subscriptionNo);
    } else if InsertRecharge(subscribed, order.orderNo, RechargeFor(order)).Ok? {
      var after := InsertRecharge(subscribed, order.orderNo, RechargeFor(order)).value;
      PaidTables(db, subscribed, after, order, session, subscriptionNo);
    }
  }

  lemma SameTables(db: Db, updated: Db, subscribed: Db, order: Order, session: Session, subscriptionNo: Text)
    requires updated == db.(orders := updated.orders)
      && subscribed == updated.(subscriptions := subscribed.subscriptions)
    ensures CanBeRecharged(subscribed, order) <==> CanBeRecharged(db, order)
    ensures AddsSubscription(updated, subscribed, order, session, subscriptionNo) ==>
      AddsSubscription(db, subscribed, order, session, subscriptionNo)
  {
  }

  lemma NothingAdded(db: Db, updated: Db, order: Order, session: Session, subscriptionNo: Text)
    requires updated == db.(orders := updated.orders) && session.subscriptionInfo == None && !SellsCredits(order)
    ensures AddsSubscription(db, updated, order, session, subscriptionNo) && AddsRecharge(db, updated, order)
  {
  }

  lemma PaidTables(db: Db, subscribed: Db, after: Db, order: Order, session: Session, subscriptionNo: Text)
    requires subscribed == db.(orders := subscribed.orders, subscriptions := subscribed.subscriptions)
    requires after == subscribed.(accounts := after.accounts, ledger := after.ledger)
    requires AddsSubscription(db, subscribed, order, session, subscriptionNo) && AddsRecharge(subscribed, after, order)
    ensures AddsSubscription(db, after, order, session, subscriptionNo) && AddsRecharge(db, after, order)
  {
    hide IsRecharged;
  }

  // ----- what the handlers commit -----

  /** Every outcome of a checkout delivery. */
  ghost predicate ChecksOut(db: Db, i: nat, order: Order, session: Session, subscriptionNo: Text, outcome: Result<Db>)
    requires i < |db.orders|
  {
    if order.status !in {Created, Pending} then outcome == Ok(db)
    else if order.paymentType == Some(Subscribe)
      && (session.subscriptionId == [] || session.subscriptionInfo == None) then
      outcome == Err
    else
      match session.paymentStatus
      case None => outcome == Err
      case Some(Processing) => outcome == Ok(db)
      case Some(Success) =>
        if !MayPay(order, session) then outcome == Err
        else
          var id := if session.paymentInfo.Some? then session.paymentInfo.value.transactionId else None;
          PaysAs(db, i, order, session, subscriptionNo, id, outcome)
      case Some(_) =>
        && outcome.Ok? && WritesOrder(db, outcome.value, i, db.orders[i].(status := Failed))
        && outcome.value == db.(orders := outcome.value.orders)
  }

  /** A checkout delivery does exactly this, whatever the order was read as. */
  lemma CheckoutExactly(db: Db, i: nat, order: Order, session: Session, subscriptionNo: Text)
    requires UniqueOrders(db.orders) && i < |db.orders| && db.orders[i].orderNo == order.orderNo
    ensures ChecksOut(db, i, order, session, subscriptionNo, CheckoutSuccess(db, order, session, subscriptionNo))
  {
    hide FindOrder, UpdateOrder, UpdateOrderInTransaction, SessionMatchesOrder, MayPay, PaysAs;
    OrderWritten(db, i, order.orderNo, OrderUpdate(Some(Failed), None, None));
    UnpaidSessionMatches(order, session);
    if session.paymentStatus == Some(Success) {
      MatchExactly(order, session);
      var id := if session.paymentInfo.Some? then session.paymentInfo.value.transactionId else None;
      TransactionExactly(db, i, order, session, subscriptionNo, id);
    }
  }

  /** A succeeded session moves a pending or created order to PAID exactly when it may pay it. */
  lemma CheckoutPaysExactly(db: Db, i: nat, order: Order, session: Session, subscriptionNo: Text)
    requires UniqueOrders(db.orders) && i < |db.orders| && db.orders[i].orderNo == order.orderNo
    requires order.status in {Created, Pending} && db.orders[i].status in {Created, Pending}
    requires session.paymentStatus == Some(Success) && CanBeRecharged(db, order)
    ensures var outcome := CheckoutSuccess(db, order, session, subscriptionNo);
      outcome.Ok? && |outcome.value.orders| == |db.orders| && outcome.value.orders[i].status == Paid
      <==> MayPay(order, session)
  {
    hide CheckoutSuccess, SameCurrency, IsCovered, CanBeRecharged, AddsSubscription, AddsRecharge;
    CheckoutExactly(db, i, order, session, subscriptionNo);
  }

  /** Every outcome of a payment delivery: the session is not compared with the order, and its transaction id is
      not recorded. */
  ghost predicate TakesPayment(db: Db, i: nat, order: Order, session: Session, subscriptionNo: Text,
    outcome: Result<Db>)
    requires i < |db.orders|
  {
    if order.status == Paid then outcome == Ok(db)
    else if order.paymentType == Some(Subscribe)
      && (session.subscriptionId == [] || session.subscriptionInfo == None) then
      outcome == Err
    else if session.paymentStatus != Some(Success) then outcome == Err
    else PaysAs(db, i, order, session, subscriptionNo, None, outcome)
  }

  lemma PaymentExactly(db: Db, i: nat, order: Order, session: Session, subscriptionNo: Text)
    requires UniqueOrders(db.orders) && i < |db.orders| && db.orders[i].orderNo == order.orderNo
    ensures TakesPayment(db, i, order, session, subscriptionNo, PaymentSuccess(db, order, session, subscriptionNo))
  {
    hide UpdateOrderInTransaction, PaysAs;
    TransactionExactly(db, i, order, session, subscriptionNo, None);
  }

  /** Without an order number, or for one the table does not have, nothing is written. */
  lemma UnknownOrderExactly(db: Db, order: Order, session: Session, subscriptionNo: Text)
    requires order.orderNo == [] || forall k :: 0 <= k < |db.orders| ==> db.orders[k].orderNo != order.orderNo
    ensures CheckoutSuccess(db, order, session, subscriptionNo) in {Ok(db), Err}
    ensures PaymentSuccess(db, order, session, subscriptionNo) in {Ok(db), Err}
    ensures order.orderNo == [] ==>
      CheckoutSuccess(db, order, session, subscriptionNo) == Err
        && PaymentSuccess(db, order, session, subscriptionNo) == Err
  {
    hide SessionMatchesOrder, InsertRecharge, InsertSubscription;
  }

  /** The checkout page writes the status, and the provider if it knows it, on its order alone. */
  lemma MarkCheckoutExactly(db: Db, i: nat, status: OrderStatus, provider: Option<Text>)
    requires UniqueOrders(db.orders) && i < |db.orders|
    ensures var after, row := Next(db, MarkCheckout(db.orders[i].orderNo, status, provider)), db.orders[i];
      && WritesOrder(db, after, i,
           row.(status := status, paymentProvider := if provider.Some? then provider.value else row.paymentProvider))
      && after == db.(orders := after.orders)
  {
    hide FindOrder, UpdateOrder;
    OrderWritten(db, i, db.orders[i].orderNo, OrderUpdate(Some(status), provider, None));
  }

  /** A wallet entry opens the account if need be, moves its balance and records what it led to; it fails exactly
      when its amount is no safe integer or has the wrong sign. */
  lemma WalletEntryExactly(db: Db, userId: Text, entryType: EntryType, amount: int)
    ensures var outcome := Outcome(db, WalletEntry(userId, entryType, amount));
      var balance := if userId in db.accounts then db.accounts[userId] else 0;
      && (outcome.Ok? <==>
          && -9_007_199_254_740_991 <= amount <= 9_007_199_254_740_991
          && (entryType == Recharge ==> amount > 0) && (entryType == RequestCharge ==> amount < 0)
          && (entryType == ManualAdjustment ==> amount != 0))
      && (outcome.Ok? ==> outcome.value == db.(
            accounts := db.accounts[userId := balance + amount],
            ledger := db.ledger + [LedgerEntry(userId, entryType, amount, balance + amount, None)]))
  {
    var balance := if userId in db.accounts then db.accounts[userId] else 0;
    assert db.accounts[userId := 0][userId := balance + amount] == db.accounts[userId := balance + amount];
  }

  // ----- what a renewal commits -----

  /** The session renews this subscription, with both ends of its period, and succeeded. */
  ghost predicate MayRenew(renewal: Renewal, session: Session) {
    && renewal.subscriptionNo != [] && renewal.amount != 0 && renewal.currency != []
    && session.subscriptionId != [] && session.subscriptionId == renewal.subscriptionId
    && session.subscriptionInfo.Some?
    && session.subscriptionInfo.value.currentPeriodStart.Some? && session.subscriptionInfo.value.currentPeriodEnd.Some?
    && session.paymentStatus == Some(Success)
  }

  /** The order at `k` is the first that carries the transaction of the session. */
  ghost predicate CarriesFirst(orders: seq<Order>, k: int, id: Option<Text>, provider: Text) {
    && id.Some? && id.value != [] && provider != []
    && 0 <= k < |orders| && orders[k].transactionId == id && orders[k].paymentProvider == provider
    && forall j :: 0 <= j < k ==> orders[j].transactionId != id || orders[j].paymentProvider != provider
  }

  ghost predicate IsGranted(grants: seq<CreditGrant>, orderNo: Text) {
    orderNo != [] && exists k :: 0 <= k < |grants| && grants[k].orderNo == orderNo
  }

  /** The renewal is recorded under the number of an order of the table, or under that of its own order, added as
      a paid one. */
  ghost predicate RecordsOrder(db: Db, after: Db, renewal: Renewal, session: Session, orderNo: Text, recorded: Text) {
    var id := if session.paymentInfo.Some? then session.paymentInfo.value.transactionId else None;
    var provider := if session.provider != [] then session.provider else renewal.paymentProvider;
    || (exists k :: CarriesFirst(db.orders, k, id, provider) && after.orders == db.orders
                    && recorded == db.orders[k].orderNo)
    || ((forall k :: !CarriesFirst(db.orders, k, id, provider)) && recorded == orderNo
        && after.orders == db.orders + [Order(orderNo, renewal.userId, Paid, Some(Renew), renewal.amount,
                                              renewal.currency, renewal.creditsAmount, provider, id)])
  }

  ghost predicate AddsGrant(db: Db, after: Db, renewal: Renewal, orderNo: Text, recorded: Text) {
    after.grants ==
      if renewal.creditsAmount.Some? && renewal.creditsAmount.value > 0 && !IsGranted(db.grants, recorded)
      then db.grants + [CreditGrant(orderNo, renewal.userId, renewal.creditsAmount.value)] else db.grants
  }

  /** The rows of the subscription get the period of the session, the others stay. */
  ghost predicate SetsPeriod(db: Db, after: Db, renewal: Renewal, info: SubscriptionInfo) {
    && |after.subscriptions| == |db.subscriptions|
    && forall k :: 0 <= k < |db.subscriptions| ==>
      after.subscriptions[k] ==
      if db.subscriptions[k].subscriptionNo == renewal.subscriptionNo
      then db.subscriptions[k].(currentPeriodStart := info.currentPeriodStart, currentPeriodEnd :=
        info.currentPeriodEnd)
      else db.subscriptions[k]
  }

  lemma {:induction false} FirstTransaction(orders: seq<Order>, id: Text, provider: Text)
    ensures FindTransaction(orders, id, provider).Some? ==>
      forall j :: 0 <= j < FindTransaction(orders, id, provider).value ==> !IsTransaction(orders[j], id, provider)
  {
    if orders != [] {
      var n := |orders| - 1;
      FirstTransaction(orders[..n], id, provider);
      assert forall j :: 0 <= j < n ==> orders[..n][j] == orders[j];
    }
  }

  lemma ExistingExactly(orders: seq<Order>, newOrder: Order, k: int)
    ensures ExistingOrder(orders, newOrder).Some? && ExistingOrder(orders, newOrder).value == k
       <==> CarriesFirst(orders, k, newOrder.transactionId, newOrder.paymentProvider)
  {
    hide FindTransaction;
    if newOrder.transactionId.Some? {
      FirstTransaction(orders, newOrder.transactionId.value, newOrder.paymentProvider);
    }
  }

  lemma ExistingInTable(orders: seq<Order>, newOrder: Order)
    requires ExistingOrder(orders, newOrder).Some?
    ensures ExistingOrder(orders, newOrder).value < |orders|
  {
    hide FindTransaction;
  }

  lemma GrantedExactly(grants: seq<CreditGrant>, orderNo: Text)
    ensures orderNo != [] && HasGrant(grants, orderNo) <==> IsGranted(grants, orderNo)
  {
  }

  /** A renewal throws exactly when it may not renew; otherwise it records its order once by transaction, adds its
      grant once by order number, and sets the period. */
  lemma RenewalExactly(db: Db, renewal: Renewal, session: Session, orderNo: Text)
    ensures var outcome := SubscriptionRenewal(db, renewal, session, orderNo);
      && (outcome.Ok? <==> MayRenew(renewal, session))
      && (outcome.Ok? ==>
            var after := outcome.value;
            && (exists recorded :: && RecordsOrder(db, after, renewal, session, orderNo, recorded)
                                   && AddsGrant(db, after, renewal, orderNo, recorded))
            && SetsPeriod(db, after, renewal, session.subscriptionInfo.value)
            && after.accounts == db.accounts && after.ledger == db.ledger)
  {
    hide FindTransaction, HasGrant, IsGranted, ExistingOrder, CarriesFirst;
    if MayRenew(renewal, session) {
      var newOrder := RenewalOrder(renewal, session, orderNo);
      var existing := ExistingOrder(db.orders, newOrder);
      if existing.Some? {
        ExistingInTable(db.orders, newOrder);
      }
      forall k: int
        ensures existing.Some? && existing.value == k
           <==> CarriesFirst(db.orders, k, newOrder.transactionId, newOrder.paymentProvider)
      {
        ExistingExactly(db.orders, newOrder, k);
      }
      var after := SubscriptionRenewal(db, renewal, session, orderNo).value;
      var recorded := if existing.Some? then db.orders[existing.value].orderNo else orderNo;
      GrantedExactly(db.grants, recorded);
      assert RecordsOrder(db, after, renewal, session, orderNo, recorded);
      assert AddsGrant(db, after, renewal, orderNo, recorded);
    }
  }
}
