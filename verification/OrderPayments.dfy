/** Orders, subscriptions, credit grants and the wallet ledger, and the transactions that payment
    webhooks commit on them. */
module OrderPayments {
  import opened Wrappers
  import opened CodeUnits
  import opened SafeIntegers

  const MICRO_USD_PER_CENT := 10_000

  datatype OrderStatus = Pending | Created | Completed | Paid | Failed
  datatype PaymentType = OneTime | Subscribe | Renew
  datatype PaymentStatus = Processing | Success | PaymentFailed | Canceled

  datatype Order = Order(
    orderNo: Text, userId: Text, status: OrderStatus, paymentType: Option<PaymentType>, amount: int,
    currency: Text, creditsAmount: Option<int>, paymentProvider: Text, transactionId: Option<Text>)

  /** The columns an update sets; None leaves a column as it is. */
  datatype OrderUpdate = OrderUpdate(status: Option<OrderStatus>, paymentProvider: Option<Text>,
    transactionId: Option<Text>)

  datatype Subscription = Subscription(
    subscriptionNo: Text, userId: Text, subscriptionId: Text, paymentProvider: Text,
    currentPeriodStart: Option<int>, currentPeriodEnd: Option<int>)
  datatype CreditGrant = CreditGrant(orderNo: Text, userId: Text, credits: int)

  datatype EntryType = Recharge | RequestCharge | ManualAdjustment
  datatype LedgerEntry = LedgerEntry(
    userId: Text, entryType: EntryType, amountMicroUsd: int, balanceAfterMicroUsd: int, orderNo: Option<Text>)

  datatype Db = Db(
    orders: seq<Order>, subscriptions: seq<Subscription>, grants: seq<CreditGrant>,
    accounts: map<Text, int>, ledger: seq<LedgerEntry>)

  datatype PaymentInfo = PaymentInfo(
    paymentAmount: Option<int>, paymentCurrency: Text, discountAmount: Option<int>, transactionId: Option<Text>)

  datatype SubscriptionInfo = SubscriptionInfo(subscriptionId: Text, currentPeriodStart: Option<int>,
    currentPeriodEnd: Option<int>)

  /** An absent id is the empty text, which the source also takes as absent. */
  datatype Session = Session(
    provider: Text, paymentStatus: Option<PaymentStatus>, paymentInfo: Option<PaymentInfo>,
    subscriptionId: Text, subscriptionInfo: Option<SubscriptionInfo>)

  datatype WalletRecharge = WalletRecharge(userId: Text, amountMicroUsd: int)

  // ----- table access -----

  function FindOrder(orders: seq<Order>, orderNo: Text): (r: Option<nat>)
    ensures match r
      case Some(i) => i < |orders| && orders[i].orderNo == orderNo
      case None => forall i :: 0 <= i < |orders| ==> orders[i].orderNo != orderNo
  {
    if orders == [] then None
    else if orders[|orders| - 1].orderNo == orderNo then Some(|orders| - 1)
    else FindOrder(orders[..|orders| - 1], orderNo)
  }

  /** `findOrderByTransactionId`: the first order with this transaction id and provider. */
  function FindTransaction(orders: seq<Order>, transactionId: Text, provider: Text): (r: Option<nat>)
    ensures match r
      case Some(i) => i < |orders| && IsTransaction(orders[i], transactionId, provider)
      case None => forall i :: 0 <= i < |orders| ==> !IsTransaction(orders[i], transactionId, provider)
  {
    if orders == [] then None
    else
      var n := |orders| - 1;
      var first := FindTransaction(orders[..n], transactionId, provider);
      if first.Some? then first
      else if IsTransaction(orders[n], transactionId, provider) then Some(n)
      else None
  }

  predicate IsTransaction(o: Order, transactionId: Text, provider: Text) {
    o.transactionId == Some(transactionId) && o.paymentProvider == provider
  }

  predicate HasSubscription(subscriptions: seq<Subscription>, subscriptionId: Text, provider: Text) {
    exists i :: 0 <= i < |subscriptions|
      && subscriptions[i].subscriptionId == subscriptionId && subscriptions[i].paymentProvider == provider
  }

  predicate HasGrant(grants: seq<CreditGrant>, orderNo: Text) {
    exists i :: 0 <= i < |grants| && grants[i].orderNo == orderNo
  }

  predicate IsRechargeOf(entry: LedgerEntry, orderNo: Text) {
    entry.entryType == Recharge && entry.orderNo == Some(orderNo)
  }

  predicate HasRecharge(ledger: seq<LedgerEntry>, orderNo: Text) {
    exists i :: 0 <= i < |ledger| && IsRechargeOf(ledger[i], orderNo)
  }

  function Updated(o: Order, u: OrderUpdate): Order {
    o.(status := if u.status.Some? then u.status.value else o.status,
       paymentProvider := if u.paymentProvider.Some? then u.paymentProvider.value else o.paymentProvider,
       transactionId := if u.transactionId.Some? then u.transactionId else o.transactionId)
  }

  /** `updateOrderByOrderNo`, which asks for no particular status. */
  function UpdateOrder(orders: seq<Order>, orderNo: Text, u: OrderUpdate): seq<Order> {
    match FindOrder(orders, orderNo)
    case None => orders
    case Some(i) => orders[i := Updated(orders[i], u)]
  }

  // ----- the wallet -----

  function EnsureAccount(db: Db, userId: Text): Db {
    if userId in db.accounts then db else db.(accounts := db.accounts[userId := 0])
  }

  predicate IsSignOk(entryType: EntryType, amount: int) {
    match entryType
    case Recharge => amount > 0
    case RequestCharge => amount < 0
    case ManualAdjustment => amount != 0
  }

  /** `appendLedgerEntryInTx`: moves the balance and records the entry, or throws. */
  function AppendLedgerEntry(db: Db, userId: Text, entryType: EntryType, amount: int,
    orderNo: Option<Text>): Result<Db> {
    if !(-MAX_SAFE_INTEGER <= amount <= MAX_SAFE_INTEGER) || !IsSignOk(entryType, amount)
      || userId !in db.accounts then Err
    else
      var balance := db.accounts[userId] + amount;
      Ok(db.(accounts := db.accounts[userId := balance],
             ledger := db.ledger + [LedgerEntry(userId, entryType, amount, balance, orderNo)]))
  }

  // ----- `updateOrderInTransaction` -----

  /** Once an order is on its way to PAID only a pending or created one may still be updated. */
  predicate PassesStatusGuard(current: OrderStatus, u: OrderUpdate) {
    u.status == Some(Paid) ==> current == Created || current == Pending
  }

  function InsertSubscription(db: Db, newSubscription: Option<Subscription>): Db {
    match newSubscription
    case None => db
    case Some(sub) =>
      if sub.subscriptionId != [] && sub.paymentProvider != []
         && HasSubscription(db.subscriptions, sub.subscriptionId, sub.paymentProvider) then db
      else db.(subscriptions := db.subscriptions + [sub])
  }

  /** At most one grant for the number of the order. */
  function InsertCredit(db: Db, orderNo: Text, newCredit: Option<CreditGrant>): Db {
    match newCredit
    case None => db
    case Some(grant) => if HasGrant(db.grants, orderNo) then db else db.(grants := db.grants + [grant])
  }

  function InsertRecharge(db: Db, orderNo: Text, recharge: Option<WalletRecharge>): Result<Db> {
    match recharge
    case None => Ok(db)
    case Some(r) =>
      var open := EnsureAccount(db, r.userId);
      if HasRecharge(open.ledger, orderNo) then Ok(open)
      else AppendLedgerEntry(open, r.userId, Recharge, r.amountMicroUsd, Some(orderNo))
  }

  /** An error is a throw, which leaves the database as it was. */
  function UpdateOrderInTransaction(
    db: Db, orderNo: Text, u: OrderUpdate, newSubscription: Option<Subscription>, newCredit: Option<CreditGrant>,
    recharge: Option<WalletRecharge>): Result<Db>
  {
    if orderNo == [] then Err
    else if newSubscription == None && newCredit == None && recharge == None then
      Ok(db.(orders := UpdateOrder(db.orders, orderNo, u)))
    else
      match FindOrder(db.orders, orderNo)
      case None => Ok(db)
      case Some(i) =>
        if !PassesStatusGuard(db.orders[i].status, u) then Ok(db)
        else
          var updated := db.(orders := UpdateOrder(db.orders, orderNo, u));
          InsertRecharge(InsertCredit(InsertSubscription(updated, newSubscription), orderNo, newCredit), orderNo,
            recharge)
  }

  // ----- webhook handlers, on a snapshot of the order -----

  function LowerUnit(c: CodeUnit): CodeUnit {
    if 0x41 <= c <= 0x5A then c + 0x20 else c
  }

  function Lower(s: Text): Text {
    seq(|s|, i requires 0 <= i < |s| => LowerUnit(s[i]))
  }

  function ValueOrZero(v: Option<int>): int {
    if v.Some? then v.value else 0
  }

  /** `assertPaymentSessionMatchesOrder`: whether the session may settle the order. */
  predicate SessionMatchesOrder(order: Order, session: Session) {
    session.paymentStatus != Some(Success) || order.paymentType == Some(Subscribe) || session.paymentInfo == None ||
    var info := session.paymentInfo.value;
    && (info.paymentCurrency == [] || order.currency == [] || Lower(info.paymentCurrency) == Lower(order.currency))
    && (info.paymentAmount == None || info.paymentAmount.value + ValueOrZero(info.discountAmount) >= order.amount)
  }

  function PaidUpdate(transactionId: Option<Text>): OrderUpdate {
    OrderUpdate(Some(Paid), None, transactionId)
  }

  function FirstSubscription(order: Order, session: Session, subscriptionNo: Text): Option<Subscription> {
    match session.subscriptionInfo
    case None => None
    case Some(info) =>
      Some(Subscription(subscriptionNo, order.userId, info.subscriptionId, order.paymentProvider,
                        info.currentPeriodStart, info.currentPeriodEnd))
  }

  function RechargeFor(order: Order): Option<WalletRecharge> {
    if ValueOrZero(order.creditsAmount) > 0 then Some(WalletRecharge(order.userId, order.amount * MICRO_USD_PER_CENT))
      else None
  }

  predicate LacksSubscription(order: Order, session: Session) {
    order.paymentType == Some(Subscribe) && (session.subscriptionId == [] || session.subscriptionInfo == None)
  }

  function TransactionIdOf(session: Session): Option<Text> {
    if session.paymentInfo.Some? then session.paymentInfo.value.transactionId else None
  }

  /** `handleCheckoutSuccess` */
  function CheckoutSuccess(db: Db, order: Order, session: Session, subscriptionNo: Text): Result<Db> {
    if order.orderNo == [] then Err
    else if order.status != Created && order.status != Pending then Ok(db)
    else if LacksSubscription(order, session) || !SessionMatchesOrder(order, session) then Err
    else
      match session.paymentStatus
      case Some(Success) =>
        UpdateOrderInTransaction(db, order.orderNo, PaidUpdate(TransactionIdOf(session)),
                                 FirstSubscription(order, session, subscriptionNo), None, RechargeFor(order))
      case Some(Processing) => Ok(db)
      case Some(_) => Ok(db.(orders := UpdateOrder(db.orders, order.orderNo, OrderUpdate(Some(Failed), None, None))))
      case None => Err
  }

  /** `handlePaymentSuccess`: any unpaid snapshot goes on, the session is not compared with the order,
      and the transaction id is not recorded. */
  function PaymentSuccess(db: Db, order: Order, session: Session, subscriptionNo: Text): Result<Db> {
    if order.orderNo == [] then Err
    else if order.status == Paid then Ok(db)
    else if LacksSubscription(order, session) || session.paymentStatus != Some(Success) then Err
    else
      UpdateOrderInTransaction(db, order.orderNo, PaidUpdate(None),
                               FirstSubscription(order, session, subscriptionNo), None, RechargeFor(order))
  }

  // ----- renewals -----

  datatype Renewal = Renewal(
    subscriptionNo: Text, subscriptionId: Text, userId: Text, amount: int, currency: Text, creditsAmount: Option<int>,
    paymentProvider: Text)

  function RenewalProvider(renewal: Renewal, session: Session): Text {
    if session.provider != [] then session.provider else renewal.paymentProvider
  }

  function RenewalOrder(renewal: Renewal, session: Session, orderNo: Text): Order {
    Order(orderNo, renewal.userId, Paid, Some(Renew), renewal.amount, renewal.currency, renewal.creditsAmount,
          RenewalProvider(renewal, session), TransactionIdOf(session))
  }

  function RenewalGrant(renewal: Renewal, orderNo: Text): Option<CreditGrant> {
    var credits := ValueOrZero(renewal.creditsAmount);
    if credits > 0 then Some(CreditGrant(orderNo, renewal.userId, credits)) else None
  }

  /** The order that already carries the transaction of a new one. */
  function ExistingOrder(orders: seq<Order>, newOrder: Order): Option<nat> {
    if newOrder.transactionId.Some? && newOrder.transactionId.value != [] && newOrder.paymentProvider != [] then
      FindTransaction(orders, newOrder.transactionId.value, newOrder.paymentProvider)
    else None
  }

  /** The subscription rows with this number, with their new billing period. */
  function WithPeriod(subscriptions: seq<Subscription>, subscriptionNo: Text,
    info: SubscriptionInfo): (r: seq<Subscription>)
    ensures |r| == |subscriptions|
    ensures forall i :: 0 <= i < |r| ==>
      r[i] == if subscriptions[i].subscriptionNo != subscriptionNo then subscriptions[i]
              else subscriptions[i].(currentPeriodStart := info.currentPeriodStart, currentPeriodEnd :=
                info.currentPeriodEnd)
  {
    seq(|subscriptions|, i requires 0 <= i < |subscriptions| =>
      if subscriptions[i].subscriptionNo != subscriptionNo then subscriptions[i]
      else subscriptions[i].(currentPeriodStart := info.currentPeriodStart, currentPeriodEnd := info.currentPeriodEnd))
  }

  /** `updateSubscriptionInTransaction`, as the renewal handler calls it. */
  function UpdateSubscriptionInTransaction(
    db: Db, subscriptionNo: Text, info: SubscriptionInfo, newOrder: Order, newGrant: Option<CreditGrant>): Db
  {
    var existing := ExistingOrder(db.orders, newOrder);
    var orders := if existing.Some? then db.orders else db.orders + [newOrder];
    var orderNo := if existing.Some? then db.orders[existing.value].orderNo else newOrder.orderNo;
    var inserted := newGrant.Some? && !(orderNo != [] && HasGrant(db.grants, orderNo));
    db.(orders := orders,
        grants := if inserted then db.grants + [newGrant.value] else db.grants,
        subscriptions := WithPeriod(db.subscriptions, subscriptionNo, info))
  }

  /** Whether a session may renew the subscription. */
  predicate CanRenew(renewal: Renewal, session: Session) {
    && renewal.subscriptionNo != [] && renewal.amount != 0 && renewal.currency != []
    && session.subscriptionId != [] && session.subscriptionId == renewal.subscriptionId
    && session.subscriptionInfo.Some?
    && session.subscriptionInfo.value.currentPeriodStart.Some? && session.subscriptionInfo.value.currentPeriodEnd.Some?
    && session.paymentStatus == Some(Success)
  }

  /** `handleSubscriptionRenewal`, given a fresh order number. */
  function SubscriptionRenewal(db: Db, renewal: Renewal, session: Session, orderNo: Text): Result<Db> {
    if !CanRenew(renewal, session) then Err
    else
      Ok(UpdateSubscriptionInTransaction(db, renewal.subscriptionNo, session.subscriptionInfo.value,
                                         RenewalOrder(renewal, session, orderNo), RenewalGrant(renewal, orderNo)))
  }
}
