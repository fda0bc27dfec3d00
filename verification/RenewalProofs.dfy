/** When delivering a subscription renewal again changes nothing. */
module RenewalProofs {
  import opened Wrappers
  import opened CodeUnits
  import opened OrderPayments
  import opened OrderProofs

  predicate HasTransaction(renewal: Renewal, session: Session) {
    && TransactionIdOf(session).Some? && TransactionIdOf(session).value != []
    && RenewalProvider(renewal, session) != []
  }

  /** The order that a renewal would find, if it carries a transaction. */
  function Found(db: Db, renewal: Renewal, session: Session): Option<nat> {
    ExistingOrder(db.orders, RenewalOrder(renewal, session, []))
  }

  lemma {:induction false} FindsAppended(orders: seq<Order>, o: Order, t: Text, p: Text)
    ensures FindTransaction(orders + [o], t, p)
         == if FindTransaction(orders, t, p).Some? then FindTransaction(orders, t, p)
            else if IsTransaction(o, t, p) then Some(|orders|)
            else None
  {
    assert (orders + [o])[..|orders|] == orders;
  }

  lemma HasAppended(grants: seq<CreditGrant>, grant: CreditGrant)
    ensures HasGrant(grants + [grant], grant.orderNo)
    ensures forall n :: HasGrant(grants, n) ==> HasGrant(grants + [grant], n)
    ensures forall n :: n != grant.orderNo && !HasGrant(grants, n) ==> !HasGrant(grants + [grant], n)
  {
    var after := grants + [grant];
    assert after[|grants|] == grant;
    forall n | HasGrant(grants, n)
      ensures HasGrant(after, n)
    {
      var i :| 0 <= i < |grants| && grants[i].orderNo == n;
      assert after[i].orderNo == n;
    }
  }

  lemma PeriodTwice(subscriptions: seq<Subscription>, subscriptionNo: Text, info: SubscriptionInfo)
    ensures var once := WithPeriod(subscriptions, subscriptionNo, info); WithPeriod(once, subscriptionNo, info) == once
  {
  }

  /** Delivering a renewal that grants credits a second time adds nothing exactly when it carries a
      transaction id and a provider, and the first delivery found either no order of that transaction or
      one that already had its grant. Otherwise every delivery adds another grant: without a transaction
      id each one also adds an order, and an order first paid through checkout never gets a grant of its
      own, so each renewal delivery for its transaction adds one under a new order number. */
  lemma RedeliveryAddsNothingExactly(db: Db, renewal: Renewal, session: Session, first: Text, second: Text)
    requires UniqueOrders(db.orders) && ValueOrZero(renewal.creditsAmount) > 0
    requires SubscriptionRenewal(db, renewal, session, first).Ok? && IsFreshOrderNo(db, first)
    requires IsFreshOrderNo(SubscriptionRenewal(db, renewal, session, first).value, second)
    ensures var once := SubscriptionRenewal(db, renewal, session, first).value;
      SubscriptionRenewal(once, renewal, session, second) == Ok(once)
      <==> HasTransaction(renewal, session)
           && (Found(db, renewal, session) == None
               || HasGrant(db.grants, db.orders[Found(db, renewal, session).value].orderNo))
  {
    hide FindOrder, FindTransaction, HasGrant, WithPeriod;
    var once := SubscriptionRenewal(db, renewal, session, first).value;
    var t, p := TransactionIdOf(session), RenewalProvider(renewal, session);
    if t.Some? {
      FindsAppended(db.orders, RenewalOrder(renewal, session, first), t.value, p);
    }
    HasAppended(db.grants, RenewalGrant(renewal, first).value);
    PeriodTwice(db.subscriptions, renewal.subscriptionNo, session.subscriptionInfo.value);
    assert |SubscriptionRenewal(once, renewal, session, second).value.grants| == |once.grants| ==>
      && HasTransaction(renewal, session)
      && HasGrant(once.grants, once.orders[Found(once, renewal, session).value].orderNo);
  }

  // ----- over runs -----

  /** Exactly one order carries the transaction, and it has its grant. */
  ghost predicate Settled(db: Db, t: Text, p: Text, orderNo: Text) {
    && orderNo != [] && HasGrant(db.grants, orderNo) && FindOrder(db.orders, orderNo).Some?
    && forall i :: 0 <= i < |db.orders| ==> (IsTransaction(db.orders[i], t, p) <==> db.orders[i].orderNo == orderNo)
  }

  predicate OrderCarries(db: Db, orderNo: Text, t: Text) {
    var found := FindOrder(db.orders, orderNo);
    found.Some? && db.orders[found.value].transactionId == Some(t)
  }

  /** The step puts the settled transaction on another order or takes it from its own: a new order that carries it,
      a checkout page that relabels the provider of an order that carries the id, or a checkout delivery that pays
      another order under it or its own order under another one. */
  predicate Breaks(db: Db, e: Event, t: Text, p: Text, n: Text)
    requires Enabled(db, e)
  {
    match e
    case CreateOrder(order) => IsTransaction(order, t, p)
    case MarkCheckout(orderNo, _, provider) =>
      provider.Some? && OrderCarries(db, orderNo, t)
        && (if orderNo == n then provider.value != p else provider.value == p)
    case Checkout(snapshot, session, _) =>
      var i := FindOrder(db.orders, snapshot.orderNo).value;
      PaysOrder(db, e, i) && TransactionIdOf(session).Some? &&
      (if snapshot.orderNo == n then TransactionIdOf(session) != Some(t)
       else TransactionIdOf(session) == Some(t) && db.orders[i].paymentProvider == p)
    case _ => false
  }

  lemma {:induction false} FirstTransactionIs(orders: seq<Order>, t: Text, p: Text, k: nat)
    requires k < |orders| && IsTransaction(orders[k], t, p)
    requires forall i :: 0 <= i < |orders| && IsTransaction(orders[i], t, p) ==> i == k
    ensures FindTransaction(orders, t, p) == Some(k)
  {
  }

  /** The order that carries a settled transaction. */
  lemma SettledOrder(db: Db, t: Text, p: Text, n: Text) returns (k: nat)
    requires UniqueOrders(db.orders) && Settled(db, t, p, n)
    ensures k < |db.orders| && db.orders[k].orderNo == n && FindOrder(db.orders, n) == Some(k)
    ensures FindTransaction(db.orders, t, p) == Some(k)
    ensures forall i :: 0 <= i < |db.orders| && i != k ==> !IsTransaction(db.orders[i], t, p)
  {
    hide FindOrder, FindTransaction, HasGrant, IsTransaction;
    k := FindOrder(db.orders, n).value;
    FirstTransactionIs(db.orders, t, p, k);
  }

  lemma RenewalSettles(db: Db, renewal: Renewal, session: Session, orderNo: Text, t: Text, p: Text, n: Text)
    requires Sound(db) && IsFreshOrderNo(db, orderNo) && Settled(db, t, p, n) && t != [] && p != []
    requires SubscriptionRenewal(db, renewal, session, orderNo).Ok?
    ensures Settled(SubscriptionRenewal(db, renewal, session, orderNo).value, t, p, n)
    ensures TransactionIdOf(session) == Some(t) && RenewalProvider(renewal, session) == p ==>
      SubscriptionRenewal(db, renewal, session, orderNo)
      == Ok(db.(subscriptions := WithPeriod(db.subscriptions, renewal.subscriptionNo, session.subscriptionInfo.value)))
  {
    hide FindOrder, FindTransaction, HasGrant, RechargesSound, BalancesSound, UniqueGrants, UniqueSubscriptions,
         UniqueOrders, WithPeriod;
    var after := SubscriptionRenewal(db, renewal, session, orderNo).value;
    var k := SettledOrder(db, t, p, n);
    FindsOrderAppended(db.orders, RenewalOrder(renewal, session, orderNo), n);
    if RenewalGrant(renewal, orderNo).Some? {
      HasAppended(db.grants, RenewalGrant(renewal, orderNo).value);
    }
  }

  lemma FindsOrderAppended(orders: seq<Order>, o: Order, n: Text)
    ensures FindOrder(orders, n).Some? ==> FindOrder(orders + [o], n).Some?
    ensures FindOrder(orders, n).Some? && FindOrder(orders, o.orderNo) == None ==> o.orderNo != n
  {
    assert (orders + [o])[..|orders|] == orders;
  }

  /** What a step other than a renewal does to an order that is there. */
  ghost predicate IsStepped(db: Db, e: Event, i: nat, after: Order)
    requires i < |db.orders|
  {
    var order := db.orders[i];
    match e
    case MarkCheckout(orderNo, status, provider) =>
      after == if order.orderNo == orderNo then Updated(order, OrderUpdate(Some(status), provider, None)) else order
    case Checkout(_, _, _) => after == AfterDelivery(db, e, i)
    case Payment(_, _, _) => after == AfterDelivery(db, e, i)
    case _ => after == order
  }

  lemma OrderStepped(db: Db, e: Event, i: nat)
    requires Sound(db) && Enabled(db, e) && !e.Renewed? && i < |db.orders|
    ensures i < |Next(db, e).orders| && IsStepped(db, e, i, Next(db, e).orders[i])
  {
    hide FindOrder, RechargesSound, BalancesSound, UniqueGrants, UniqueSubscriptions, CheckoutSuccess, PaymentSuccess,
         IsSignOk,
         HasGrant, AfterDelivery, IsSnapshot;
    OrderNumbered(db, i);
    if e.Checkout? || e.Payment? {
      DeliveryOutcome(db, e, i);
    }
  }

  lemma StepGrowth(db: Db, e: Event)
    requires Enabled(db, e) && !e.Renewed?
    ensures Next(db, e).grants == db.grants
    ensures |Next(db, e).orders| == |db.orders| + (if e.CreateOrder? then 1 else 0)
    ensures e.CreateOrder? ==> Next(db, e).orders == db.orders + [e.order]
  {
    hide FindOrder, CheckoutSuccess, PaymentSuccess, IsSignOk, HasGrant;
    if e.Checkout? || e.Payment? {
      DeliveryTouchesOneOrder(db, e, FindOrder(db.orders, e.snapshot.orderNo).value);
    }
  }

  /** The number of the order that a step writes to. */
  function Target(e: Event): Text {
    match e
    case MarkCheckout(orderNo, _, _) => orderNo
    case Checkout(snapshot, _, _) => snapshot.orderNo
    case Payment(snapshot, _, _) => snapshot.orderNo
    case _ => []
  }

  lemma OrderBreaks(db: Db, e: Event, i: nat, after: Order, t: Text, p: Text, n: Text)
    requires Sound(db) && Enabled(db, e) && Settled(db, t, p, n) && i < |db.orders| && IsStepped(db, e, i, after)
    ensures !Breaks(db, e, t, p, n) ==> IsTransaction(after, t, p) == IsTransaction(db.orders[i], t, p)
    ensures Breaks(db, e, t, p, n) && !e.CreateOrder? && db.orders[i].orderNo == Target(e) ==>
      IsTransaction(after, t, p) != IsTransaction(db.orders[i], t, p)
  {
    hide FindOrder, RechargesSound, BalancesSound, UniqueGrants, UniqueSubscriptions, HasGrant, PaysOrder, FailsOrder;
    OrderNumbered(db, i);
    if e.Checkout? || e.Payment? {
      PaysOnlyItsOrder(db, e, i);
    }
  }

  lemma PaysOnlyItsOrder(db: Db, e: Event, i: nat)
    requires (e.Checkout? || e.Payment?) && i < |db.orders|
    ensures PaysOrder(db, e, i) ==> e.snapshot.orderNo == db.orders[i].orderNo
  {
  }

  lemma TargetExists(db: Db, e: Event, t: Text, p: Text, n: Text) returns (i: nat)
    requires Enabled(db, e) && Breaks(db, e, t, p, n) && !e.CreateOrder?
    ensures i < |db.orders| && db.orders[i].orderNo == Target(e)
  {
    hide FindOrder, PaysOrder;
    i := FindOrder(db.orders, Target(e)).value;
  }

  /** The settled order is found again in any table that grew from this one. */
  lemma SettledAfter(db: Db, after: Db, t: Text, p: Text, n: Text)
    requires Sound(db) && Sound(after) && KeepsIdentities(db.orders, after.orders) && Settled(db, t, p, n)
    requires after.grants == db.grants
    ensures Settled(after, t, p, n) <==>
      forall i :: 0 <= i < |after.orders| ==> (IsTransaction(after.orders[i], t, p) <==> after.orders[i].orderNo == n)
  {
    hide FindOrder, HasGrant, IsTransaction, RechargesSound, BalancesSound, UniqueGrants, UniqueSubscriptions;
    FoundAfter(db.orders, after.orders, n);
  }

  /** A settled transaction stays settled in a step exactly when the step does not break it; renewal deliveries,
      payment deliveries and wallet entries never do. */
  lemma SettledExactly(db: Db, e: Event, t: Text, p: Text, n: Text)
    requires Sound(db) && Enabled(db, e) && Settled(db, t, p, n) && t != [] && p != []
    ensures Settled(Next(db, e), t, p, n) <==> !Breaks(db, e, t, p, n)
  {
    hide FindOrder, HasGrant, Sound, KeepsIdentities, IsTransaction, Breaks, IsStepped, Next, Enabled;
    var after := Next(db, e);
    if e.Renewed? {
      RenewalKeepsSettled(db, e, t, p, n);
    } else {
      StepSound(db, e);
      StepGrowth(db, e);
      SettledAfter(db, after, t, p, n);
      KeptNumbers(db, after);
      forall i | 0 <= i < |db.orders|
        ensures !Breaks(db, e, t, p, n) ==> IsTransaction(after.orders[i], t, p) == IsTransaction(db.orders[i], t, p)
      {
        OrderStepped(db, e, i);
        OrderBreaks(db, e, i, after.orders[i], t, p, n);
      }
      if e.CreateOrder? {
        NewOrderBreaks(db, e, t, p, n);
        assert after.orders[|db.orders|] == e.order;
      } else if Breaks(db, e, t, p, n) {
        var i := TargetExists(db, e, t, p, n);
        OrderStepped(db, e, i);
        OrderBreaks(db, e, i, after.orders[i], t, p, n);
      }
    }
  }

  lemma KeptNumbers(db: Db, after: Db)
    requires KeepsIdentities(db.orders, after.orders)
    ensures |db.orders| <= |after.orders| && forall i :: 0 <= i < |db.orders| ==>
      after.orders[i].orderNo == db.orders[i].orderNo
  {
  }

  lemma NewOrderBreaks(db: Db, e: Event, t: Text, p: Text, n: Text)
    requires Enabled(db, e) && e.CreateOrder? && Settled(db, t, p, n)
    ensures e.order.orderNo != n && (Breaks(db, e, t, p, n) <==> IsTransaction(e.order, t, p))
  {
    hide FindOrder;
  }

  lemma RenewalKeepsSettled(db: Db, e: Event, t: Text, p: Text, n: Text)
    requires Sound(db) && Enabled(db, e) && e.Renewed? && Settled(db, t, p, n) && t != [] && p != []
    ensures Settled(Next(db, e), t, p, n) && !Breaks(db, e, t, p, n)
  {
    hide FindOrder, Sound, Settled, SubscriptionRenewal;
    if SubscriptionRenewal(db, e.renewal, e.session, e.orderNo).Ok? {
      RenewalSettles(db, e.renewal, e.session, e.orderNo, t, p, n);
    }
  }

  /** No step of the run breaks the transaction. */
  ghost predicate NeverBreaks(db: Db, run: seq<Event>, t: Text, p: Text, n: Text)
    requires ValidRun(db, run)
    decreases |run|
  {
    run == [] || (!Breaks(db, run[0], t, p, n) && NeverBreaks(Next(db, run[0]), run[1..], t, p, n))
  }

  /** The transaction is settled before the run and after each of its steps. */
  ghost predicate SettledThroughout(db: Db, run: seq<Event>, t: Text, p: Text, n: Text)
    decreases |run|
  {
    Settled(db, t, p, n) && (run == [] || SettledThroughout(Next(db, run[0]), run[1..], t, p, n))
  }

  /** A settled transaction stays settled throughout a run exactly when no step of the run breaks it. */
  lemma {:induction false} SettledRun(db: Db, run: seq<Event>, t: Text, p: Text, n: Text)
    requires Sound(db) && ValidRun(db, run)
    requires Settled(db, t, p, n) && t != [] && p != []
    ensures SettledThroughout(db, run, t, p, n) <==> NeverBreaks(db, run, t, p, n)
    ensures NeverBreaks(db, run, t, p, n) ==> Settled(After(db, run), t, p, n)
    ensures Sound(After(db, run))
    decreases |run|
  {
    hide Sound, Enabled, Next, Settled, Breaks;
    if run != [] {
      StepSound(db, run[0]);
      SettledExactly(db, run[0], t, p, n);
      if Breaks(db, run[0], t, p, n) {
        RunSound(db, run);
      } else {
        SettledRun(Next(db, run[0]), run[1..], t, p, n);
      }
    }
  }

  lemma FirstDeliverySettles(db: Db, renewal: Renewal, session: Session, orderNo: Text)
    requires UniqueOrders(db.orders) && IsFreshOrderNo(db, orderNo) && ValueOrZero(renewal.creditsAmount) > 0
    requires SubscriptionRenewal(db, renewal, session, orderNo).Ok?
    requires HasTransaction(renewal, session) && Found(db, renewal, session) == None
    ensures Settled(SubscriptionRenewal(db, renewal, session, orderNo).value,
                    TransactionIdOf(session).value, RenewalProvider(renewal, session), orderNo)
  {
    hide FindOrder, FindTransaction, HasGrant, WithPeriod;
    FindsOrderAppended(db.orders, RenewalOrder(renewal, session, orderNo), orderNo);
    FindsNewOrder(db.orders, RenewalOrder(renewal, session, orderNo));
    HasAppended(db.grants, RenewalGrant(renewal, orderNo).value);
  }

  lemma FindsNewOrder(orders: seq<Order>, o: Order)
    ensures FindOrder(orders + [o], o.orderNo).Some?
  {
  }

  /** The rows of a subscription already have this billing period. */
  ghost predicate HasPeriod(subscriptions: seq<Subscription>, subscriptionNo: Text, info: SubscriptionInfo) {
    forall i :: 0 <= i < |subscriptions| && subscriptions[i].subscriptionNo == subscriptionNo ==>
      && subscriptions[i].currentPeriodStart == info.currentPeriodStart
      && subscriptions[i].currentPeriodEnd == info.currentPeriodEnd
  }

  lemma PeriodKeptExactly(subscriptions: seq<Subscription>, subscriptionNo: Text, info: SubscriptionInfo)
    ensures WithPeriod(subscriptions, subscriptionNo, info) == subscriptions <==>
      HasPeriod(subscriptions, subscriptionNo, info)
  {
    var after := WithPeriod(subscriptions, subscriptionNo, info);
    if after == subscriptions {
      forall i | 0 <= i < |subscriptions| && subscriptions[i].subscriptionNo == subscriptionNo
        ensures subscriptions[i].currentPeriodStart == info.currentPeriodStart
        ensures subscriptions[i].currentPeriodEnd == info.currentPeriodEnd
      {
        assert after[i] == subscriptions[i];
      }
    }
  }

  /** For a transaction first seen through a renewal with credits: after the first delivery and whatever
      follows without breaking it, however often it is delivered again, one order carries the transaction and
      one grant exists for that order. One more delivery writes nothing but the billing period, which it sets
      back to its own: it changes nothing at all exactly when the subscription still has that period. */
  lemma RenewalIdempotent(db: Db, renewal: Renewal, session: Session, orderNo: Text, run: seq<Event>, again: Text)
    requires Sound(db) && IsFreshOrderNo(db, orderNo) && ValueOrZero(renewal.creditsAmount) > 0
    requires SubscriptionRenewal(db, renewal, session, orderNo).Ok?
    requires HasTransaction(renewal, session) && Found(db, renewal, session) == None
    requires var once := SubscriptionRenewal(db, renewal, session, orderNo).value;
      ValidRun(once, run)
        && NeverBreaks(once, run, TransactionIdOf(session).value, RenewalProvider(renewal, session), orderNo)
    requires IsFreshOrderNo(After(SubscriptionRenewal(db, renewal, session, orderNo).value, run), again)
    ensures var later := After(SubscriptionRenewal(db, renewal, session, orderNo).value, run);
      var info := session.subscriptionInfo.value;
      && Settled(later, TransactionIdOf(session).value, RenewalProvider(renewal, session), orderNo)
      && UniqueOrders(later.orders) && UniqueGrants(later.grants)
      && SubscriptionRenewal(later, renewal, session, again)
         == Ok(later.(subscriptions := WithPeriod(later.subscriptions, renewal.subscriptionNo, info)))
      && (SubscriptionRenewal(later, renewal, session, again) == Ok(later)
          <==> HasPeriod(later.subscriptions, renewal.subscriptionNo, info))
  {
    hide FindOrder, Settled, UpdateSubscriptionInTransaction, ValidRun, After, NeverBreaks, HasGrant, RechargesSound,
         BalancesSound,
         UniqueSubscriptions, UniqueOrders, UniqueGrants, WithPeriod, HasPeriod;
    var t, p := TransactionIdOf(session).value, RenewalProvider(renewal, session);
    var once := SubscriptionRenewal(db, renewal, session, orderNo).value;
    RenewalSound(db, renewal, session, orderNo);
    FirstDeliverySettles(db, renewal, session, orderNo);
    SettledRun(once, run, t, p, orderNo);
    var later := After(once, run);
    RenewalSettles(later, renewal, session, again, t, p, orderNo);
    PeriodKeptExactly(later.subscriptions, renewal.subscriptionNo, session.subscriptionInfo.value);
  }
}
