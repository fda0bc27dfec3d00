/** The payment tables as the handlers update them in place; a throw rolls the transaction back. */
module PaymentStores {
  import opened Wrappers
  import opened CodeUnits
  import opened OrderPayments
  import opened OrderProofs
  import opened SafeIntegers

  lemma UpdateReachesOne(orders: seq<Order>, orderNo: Text, u: OrderUpdate)
    requires UniqueOrders(orders)
    ensures forall i :: 0 <= i < |orders| ==>
      UpdateOrder(orders, orderNo, u)[i] == if orders[i].orderNo == orderNo then Updated(orders[i], u) else orders[i]
  {
    hide FindOrder;
  }

  /** No two orders carry the same transaction id of the same provider. */
  ghost predicate TransactionsUnique(orders: seq<Order>) {
    forall i, j :: 0 <= i < j < |orders| && HasTransactionKey(orders[j]) ==>
      orders[i].transactionId != orders[j].transactionId || orders[i].paymentProvider != orders[j].paymentProvider
  }

  predicate HasTransactionKey(order: Order) {
    order.transactionId.Some? && order.transactionId.value != [] && order.paymentProvider != []
  }

  lemma NewTransactionUnique(orders: seq<Order>, newOrder: Order)
    requires ExistingOrder(orders, newOrder) == None
    ensures TransactionsUnique(orders) ==> TransactionsUnique(orders + [newOrder])
  {
    hide FindTransaction;
  }

  lemma AppendAccounts(db: Db, userId: Text, entryType: EntryType, amount: int, orderNo: Option<Text>)
    requires AppendLedgerEntry(db, userId, entryType, amount, orderNo).Ok?
    ensures var after := AppendLedgerEntry(db, userId, entryType, amount, orderNo).value;
      && (BalancesSound(db) ==> BalancesSound(after))
      && forall u :: UserTotal(after.ledger, u) == UserTotal(db.ledger, u) + (if u == userId then amount else 0)
  {
    hide UserTotal, BalancesSound, IsSignOk;
    var after := AppendLedgerEntry(db, userId, entryType, amount, orderNo).value;
    if BalancesSound(db) {
      AppendKeepsBalances(db, userId, entryType, amount, orderNo);
    }
    forall u ensures UserTotal(after.ledger, u) == UserTotal(db.ledger, u) + (if u == userId then amount else 0) {
      EntrySnoc(db.ledger, after.ledger[|db.ledger|], [], u);
    }
  }

  class PaymentStore {
    var orders: seq<Order>
    var subscriptions: seq<Subscription>
    var grants: seq<CreditGrant>
    var accounts: map<Text, int>
    var ledger: seq<LedgerEntry>

    constructor ()
      ensures View() == Db([], [], [], map[], [])
    {
      orders, subscriptions, grants, accounts, ledger := [], [], [], map[], [];
    }

    function View(): Db
      reads this
    {
      Db(orders, subscriptions, grants, accounts, ledger)
    }

    /** The new state is the outcome's, or the old one when it is a throw. */
    twostate predicate Commits(outcome: Result<Db>, ok: bool)
      reads this
    {
      match outcome
      case Ok(after) => ok && View() == after
      case Err => !ok && View() == old(View())
    }

    /** Writes the one order of that number, whatever its status, and no other. */
    method UpdateOrderByOrderNo(orderNo: Text, u: OrderUpdate)
      modifies this`orders
      ensures orders == UpdateOrder(old(orders), orderNo, u)
      ensures UniqueOrders(old(orders)) ==>
        UniqueOrders(orders) && |orders| == |old(orders)| && forall i :: 0 <= i < |orders| ==>
        orders[i] == if old(orders)[i].orderNo == orderNo then Updated(old(orders)[i], u) else old(orders)[i]
    {
      hide FindOrder;
      if UniqueOrders(orders) {
        UpdateReachesOne(orders, orderNo, u);
        UpdateKeepsIdentities(orders, orderNo, u);
      }
      var found := FindOrder(orders, orderNo);
      if found.Some? {
        orders := orders[found.value := Updated(orders[found.value], u)];
      }
    }

    /** Moves one balance and records what it led to: balances stay the sums of their entries. */
    method AppendLedgerEntryInTx(userId: Text, entryType: EntryType, amount: int, orderNo: Option<Text>)
      returns (ok: bool)
      modifies this`accounts, this`ledger
      ensures Commits(AppendLedgerEntry(old(View()), userId, entryType, amount, orderNo), ok)
      ensures old(BalancesSound(View())) ==> BalancesSound(View())
      ensures forall u :: UserTotal(ledger, u) == old(UserTotal(ledger, u)) + (if ok && u == userId then amount else 0)
    {
      hide UserTotal, BalancesSound, IsSignOk;
      if AppendLedgerEntry(View(), userId, entryType, amount, orderNo).Ok? {
        AppendAccounts(View(), userId, entryType, amount, orderNo);
      }
      if !(-MAX_SAFE_INTEGER <= amount <= MAX_SAFE_INTEGER) || !IsSignOk(entryType, amount) {
        return false;
      }
      if userId !in accounts {
        return false;
      }
      accounts := accounts[userId := accounts[userId] + amount];
      ledger := ledger + [LedgerEntry(userId, entryType, amount, accounts[userId], orderNo)];
      return true;
    }

    /** Not a second row with the same subscription id and provider. */
    method InsertSubscriptionRow(newSubscription: Option<Subscription>)
      modifies this`subscriptions
      ensures View() == InsertSubscription(old(View()), newSubscription)
      ensures old(UniqueSubscriptions(subscriptions)) ==> UniqueSubscriptions(subscriptions)
    {
      if newSubscription.Some? {
        var sub := newSubscription.value;
        var existing := sub.subscriptionId != [] && sub.paymentProvider != []
                        && HasSubscription(subscriptions, sub.subscriptionId, sub.paymentProvider);
        if !existing {
          subscriptions := subscriptions + [sub];
        }
      }
    }

    /** Not a second grant for the number of the order. */
    method InsertCreditRow(orderNo: Text, newCredit: Option<CreditGrant>)
      modifies this`grants
      ensures View() == InsertCredit(old(View()), orderNo, newCredit)
      ensures (newCredit.Some? ==> newCredit.value.orderNo == orderNo) && old(UniqueGrants(grants)) ==>
        UniqueGrants(grants)
    {
      if newCredit.Some? {
        var existingCredit := HasGrant(grants, orderNo);
        if !existingCredit {
          grants := grants + [newCredit.value];
        }
      }
    }

    /** Opens the account and appends the recharge, unless the order already has one. */
    method InsertRechargeRow(orderNo: Text, newWalletRecharge: Option<WalletRecharge>) returns (ok: bool)
      modifies this`accounts, this`ledger
      ensures ok <==> InsertRecharge(old(View()), orderNo, newWalletRecharge).Ok?
      ensures ok ==> View() == InsertRecharge(old(View()), orderNo, newWalletRecharge).value
    {
      hide HasRecharge, IsSignOk, UserTotal, BalancesSound;
      if newWalletRecharge.Some? {
        var recharge := newWalletRecharge.value;
        if recharge.userId !in accounts {
          accounts := accounts[recharge.userId := 0];
        }
        if !HasRecharge(ledger, orderNo) {
          ok := AppendLedgerEntryInTx(recharge.userId, Recharge, recharge.amountMicroUsd, Some(orderNo));
          return;
        }
      }
      return true;
    }

    method UpdateOrderTx(
      orderNo: Text, u: OrderUpdate, newSubscription: Option<Subscription>, newCredit: Option<CreditGrant>,
      newWalletRecharge: Option<WalletRecharge>) returns (ok: bool)
      modifies this
      ensures Commits(UpdateOrderInTransaction(old(View()), orderNo, u, newSubscription, newCredit, newWalletRecharge),
        ok)
      ensures (newCredit.Some? ==> newCredit.value.orderNo == orderNo) && old(UniqueGrants(grants)) ==>
        UniqueGrants(grants)
    {
      hide FindOrder, HasSubscription, HasRecharge, HasGrant, IsSignOk, UniqueOrders, UniqueGrants, InsertSubscription,
           InsertCredit, InsertRecharge, UniqueSubscriptions;
      if orderNo == [] {
        return false;
      }
      if newSubscription == None && newCredit == None && newWalletRecharge == None {
        UpdateOrderByOrderNo(orderNo, u);
        return true;
      }
      var before := View();
      var found := FindOrder(orders, orderNo);
      if found == None || !PassesStatusGuard(orders[found.value].status, u) {
        return true;
      }
      UpdateOrderByOrderNo(orderNo, u);
      InsertSubscriptionRow(newSubscription);
      InsertCreditRow(orderNo, newCredit);
      ok := InsertRechargeRow(orderNo, newWalletRecharge);
      if !ok {
        orders, subscriptions, grants := before.orders, before.subscriptions, before.grants;
        accounts, ledger := before.accounts, before.ledger;
      }
    }

    method UpdateSubscriptionBySubscriptionNo(subscriptionNo: Text, info: SubscriptionInfo)
      modifies this`subscriptions
      ensures subscriptions == WithPeriod(old(subscriptions), subscriptionNo, info)
    {
      var k := 0;
      while k < |subscriptions|
        invariant k <= |subscriptions| == |old(subscriptions)|
        invariant forall i :: 0 <= i < k ==> subscriptions[i] == WithPeriod(old(subscriptions), subscriptionNo, info)[i]
        invariant forall i :: k <= i < |subscriptions| ==> subscriptions[i] == old(subscriptions)[i]
      {
        if subscriptions[k].subscriptionNo == subscriptionNo {
          subscriptions := subscriptions[k := subscriptions[k].(currentPeriodStart := info.currentPeriodStart,
                                                                currentPeriodEnd := info.currentPeriodEnd)];
        }
        k := k + 1;
      }
    }

    /** One order per transaction id and provider, one grant per order number. */
    method UpdateSubscriptionTx(subscriptionNo: Text, info: SubscriptionInfo, newOrder: Order,
      newGrant: Option<CreditGrant>)
      modifies this`orders, this`grants, this`subscriptions
      ensures View() == UpdateSubscriptionInTransaction(old(View()), subscriptionNo, info, newOrder, newGrant)
      ensures old(TransactionsUnique(orders)) ==> TransactionsUnique(orders)
      ensures old(UniqueGrants(grants)) && (newGrant.Some? ==> !HasGrant(old(grants), newGrant.value.orderNo)) ==>
        UniqueGrants(grants)
    {
      hide FindTransaction, WithPeriod;
      var existing := ExistingOrder(orders, newOrder);
      var order := newOrder;
      if existing.Some? {
        order := orders[existing.value];
      } else {
        NewTransactionUnique(orders, newOrder);
        orders := orders + [newOrder];
      }
      if newGrant.Some? {
        var existingCredit := order.orderNo != [] && HasGrant(grants, order.orderNo);
        if !existingCredit {
          grants := grants + [newGrant.value];
        }
      }
      UpdateSubscriptionBySubscriptionNo(subscriptionNo, info);
    }

    method HandleCheckoutSuccess(order: Order, session: Session, subscriptionNo: Text) returns (ok: bool)
      modifies this
      ensures Commits(CheckoutSuccess(old(View()), order, session, subscriptionNo), ok)
    {
      hide UpdateOrderInTransaction, SessionMatchesOrder, LacksSubscription;
      if order.orderNo == [] {
        return false;
      }
      if order.status == Paid {
        return true;
      }
      if order.status != Created && order.status != Pending {
        return true;
      }
      if LacksSubscription(order, session) || !SessionMatchesOrder(order, session) {
        return false;
      }
      if session.paymentStatus == Some(Success) {
        ok := UpdateOrderTx(order.orderNo, PaidUpdate(TransactionIdOf(session)),
                            FirstSubscription(order, session, subscriptionNo), None, RechargeFor(order));
      } else if session.paymentStatus == Some(PaymentFailed) || session.paymentStatus == Some(Canceled) {
        UpdateOrderByOrderNo(order.orderNo, OrderUpdate(Some(Failed), None, None));
        ok := true;
      } else {
        ok := session.paymentStatus == Some(Processing);
      }
    }

    method HandlePaymentSuccess(order: Order, session: Session, subscriptionNo: Text) returns (ok: bool)
      modifies this
      ensures Commits(PaymentSuccess(old(View()), order, session, subscriptionNo), ok)
    {
      hide UpdateOrderInTransaction, LacksSubscription;
      if order.orderNo == [] {
        return false;
      }
      if order.status == Paid {
        return true;
      }
      if LacksSubscription(order, session) || session.paymentStatus != Some(Success) {
        return false;
      }
      ok := UpdateOrderTx(order.orderNo, PaidUpdate(None), FirstSubscription(order, session, subscriptionNo), None,
        RechargeFor(order));
    }

    method HandleSubscriptionRenewal(renewal: Renewal, session: Session, orderNo: Text) returns (ok: bool)
      modifies this
      ensures Commits(SubscriptionRenewal(old(View()), renewal, session, orderNo), ok)
    {
      if renewal.subscriptionNo == [] || renewal.amount == 0 || renewal.currency == [] {
        return false;
      }
      if session.subscriptionId == [] || session.subscriptionInfo == None {
        return false;
      }
      if session.subscriptionId != renewal.subscriptionId {
        return false;
      }
      var info := session.subscriptionInfo.value;
      if info.currentPeriodStart == None || info.currentPeriodEnd == None {
        return false;
      }
      if session.paymentStatus != Some(Success) {
        return false;
      }
      UpdateSubscriptionTx(renewal.subscriptionNo, info, RenewalOrder(renewal, session, orderNo),
        RenewalGrant(renewal, orderNo));
      return true;
    }
  }
}
