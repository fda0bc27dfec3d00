/** Inputs on which paid orders, recharges and renewals do less than one might expect; the exact conditions are
    lemmas of OrderProofs and RenewalProofs. */
module PaymentExamples {
  import opened Wrappers
  import opened CodeUnits
  import opened OrderPayments
  import opened OrderProofs

  // ----- one order -----

  const ORDER: Text := [0x41]
  const USER: Text := [0x75]
  const PROVIDER: Text := [0x70]

  /** A one-time order of 100 cents that sells credits. */
  const NEW_ORDER := Order(ORDER, USER, Pending, Some(OneTime), 100, [], Some(1), PROVIDER, None)

  const OK_SESSION := Session(PROVIDER, Some(Success), None, [], None)
  const FAILED_SESSION := Session(PROVIDER, Some(PaymentFailed), None, [], None)
  /** A succeeded session that reports an amount of 0. */
  const FREE_SESSION := Session(PROVIDER, Some(Success), Some(PaymentInfo(Some(0), [], None, None)), [], None)

  lemma EmptyIsSound()
    ensures Sound(EMPTY_DB)
  {
  }

  /** The database after the order was created, and after a delivery that pays it. */
  lemma OrderIsPaid(e: Event)
    requires e in {Checkout(NEW_ORDER, OK_SESSION, []), Payment(NEW_ORDER, FREE_SESSION, [])}
    ensures var created := Next(EMPTY_DB, CreateOrder(NEW_ORDER));
      var paid := Next(created, e);
      && Enabled(EMPTY_DB, CreateOrder(NEW_ORDER)) && Enabled(created, e) && created.orders == [NEW_ORDER]
        && Sound(created) && Sound(paid)
      && paid.orders == [NEW_ORDER.(status := Paid)]
      && paid.ledger == [LedgerEntry(USER, Recharge, 1_000_000, 1_000_000, Some(ORDER))]
  {
    hide Sound;
    EmptyIsSound();
    StepSound(EMPTY_DB, CreateOrder(NEW_ORDER));
    var created := Next(EMPTY_DB, CreateOrder(NEW_ORDER));
    assert created.orders == [NEW_ORDER];
    assert FindOrder(created.orders, ORDER) == Some(0);
    StepSound(created, e);
  }

  lemma RunStep(db: Db, a: Event, rest: seq<Event>)
    requires Enabled(db, a) && ValidRun(Next(db, a), rest)
    ensures ValidRun(db, [a] + rest) && After(db, [a] + rest) == After(Next(db, a), rest)
  {
    hide Enabled, Next;
    assert ([a] + rest)[1..] == rest;
  }

  lemma RunOfTwo(db: Db, a: Event, b: Event)
    requires Enabled(db, a) && Enabled(Next(db, a), b)
    ensures ValidRun(db, [a, b]) && After(db, [a, b]) == Next(Next(db, a), b)
  {
    hide Enabled, Next;
    RunStep(Next(db, a), b, []);
    assert [b] == [b] + [] && [a, b] == [a] + [b];
    RunStep(db, a, [b]);
  }

  lemma FailsPaidOrder(db: Db)
    requires db.orders == [NEW_ORDER.(status := Paid)]
    ensures var fail := Checkout(NEW_ORDER, FAILED_SESSION, []);
      Enabled(db, fail) && Next(db, fail).orders == [NEW_ORDER.(status := Failed)]
  {
    assert FindOrder(db.orders, ORDER) == Some(0);
  }

  /** A failed session delivered with the read from before the payment takes the order out of PAID. */
  lemma PaidOrderFails()
    ensures var run := [CreateOrder(NEW_ORDER)] +
      [Checkout(NEW_ORDER, OK_SESSION, []), Checkout(NEW_ORDER, FAILED_SESSION, [])];
      ValidRun(EMPTY_DB, run) && After(EMPTY_DB, run).orders == [NEW_ORDER.(status := Failed)]
  {
    hide Sound, Enabled, Next, ValidRun, After;
    var pay, fail := Checkout(NEW_ORDER, OK_SESSION, []), Checkout(NEW_ORDER, FAILED_SESSION, []);
    OrderIsPaid(pay);
    var created := Next(EMPTY_DB, CreateOrder(NEW_ORDER));
    FailsPaidOrder(Next(created, pay));
    RunOfTwo(created, pay, fail);
    RunStep(EMPTY_DB, CreateOrder(NEW_ORDER), [pay, fail]);
  }

  /** A payment delivery whose session reports an amount of 0 recharges the order in full. */
  lemma UnpaidPaymentRecharges()
    ensures var run := [CreateOrder(NEW_ORDER), Payment(NEW_ORDER, FREE_SESSION, [])];
      && ValidRun(EMPTY_DB, run) && !Covers(FREE_SESSION, NEW_ORDER)
      && After(EMPTY_DB, run).ledger == [LedgerEntry(USER, Recharge, 1_000_000, 1_000_000, Some(ORDER))]
  {
    hide Sound, Enabled, Next, ValidRun, After;
    OrderIsPaid(Payment(NEW_ORDER, FREE_SESSION, []));
    RunOfTwo(EMPTY_DB, CreateOrder(NEW_ORDER), Payment(NEW_ORDER, FREE_SESSION, []));
  }

  /** So does a checkout delivery whose session carries no payment information. */
  lemma UnreportedCheckoutRecharges()
    ensures var run := [CreateOrder(NEW_ORDER), Checkout(NEW_ORDER, OK_SESSION, [])];
      && ValidRun(EMPTY_DB, run) && !Covers(OK_SESSION, NEW_ORDER)
      && After(EMPTY_DB, run).ledger == [LedgerEntry(USER, Recharge, 1_000_000, 1_000_000, Some(ORDER))]
  {
    hide Sound, Enabled, Next, ValidRun, After;
    OrderIsPaid(Checkout(NEW_ORDER, OK_SESSION, []));
    RunOfTwo(EMPTY_DB, CreateOrder(NEW_ORDER), Checkout(NEW_ORDER, OK_SESSION, []));
  }

  // ----- renewals -----

  const SUBSCRIPTION_NO: Text := [0x53]
  const SUBSCRIPTION_ID: Text := [0x73]
  const FIRST_NO: Text := [0x31]
  const SECOND_NO: Text := [0x32]
  const THIRD_NO: Text := [0x33]
  const TRANSACTION: Text := [0x74]

  const TEN_CREDITS := Renewal(SUBSCRIPTION_NO, SUBSCRIPTION_ID, USER, 100, PROVIDER, Some(10), PROVIDER)

  function RenewalSession(id: Option<Text>, start: int): Session {
    Session(PROVIDER, Some(Success), Some(PaymentInfo(Some(100), [], None, id)), SUBSCRIPTION_ID,
            Some(SubscriptionInfo(SUBSCRIPTION_ID, Some(start), Some(start + 1))))
  }

  /** A renewal without a transaction id, delivered twice, leaves two orders and two grants. */
  lemma UnidentifiedRenewalGrantsTwice()
    ensures var session := RenewalSession(None, 1);
      var run := [Renewed(TEN_CREDITS, session, FIRST_NO), Renewed(TEN_CREDITS, session, SECOND_NO)];
      && ValidRun(EMPTY_DB, run)
      && After(EMPTY_DB, run).grants == [CreditGrant(FIRST_NO, USER, 10), CreditGrant(SECOND_NO, USER, 10)]
      && |After(EMPTY_DB, run).orders| == 2
  {
    var session := RenewalSession(None, 1);
    var once := Next(EMPTY_DB, Renewed(TEN_CREDITS, session, FIRST_NO));
    assert once.orders == [RenewalOrder(TEN_CREDITS, session, FIRST_NO)];
    assert once.grants == [CreditGrant(FIRST_NO, USER, 10)];
    assert SECOND_NO[0] != FIRST_NO[0];
    RunOfTwo(EMPTY_DB, Renewed(TEN_CREDITS, session, FIRST_NO), Renewed(TEN_CREDITS, session, SECOND_NO));
  }

  /** A renewal whose transaction id a checkout recorded first, on an order without a grant, leaves two grants as well.
      */
  lemma CheckedOutRenewalGrantsTwice()
    ensures var paid := NEW_ORDER.(status := Paid, transactionId := Some(TRANSACTION));
      var db := EMPTY_DB.(orders := [paid]);
      var session := RenewalSession(Some(TRANSACTION), 1);
      var run := [Renewed(TEN_CREDITS, session, FIRST_NO), Renewed(TEN_CREDITS, session, SECOND_NO)];
      && Sound(db) && ValidRun(db, run)
      && After(db, run).orders == [paid]
      && After(db, run).grants == [CreditGrant(FIRST_NO, USER, 10), CreditGrant(SECOND_NO, USER, 10)]
  {
    var paid := NEW_ORDER.(status := Paid, transactionId := Some(TRANSACTION));
    var db := EMPTY_DB.(orders := [paid]);
    var session := RenewalSession(Some(TRANSACTION), 1);
    assert FindTransaction(db.orders, TRANSACTION, PROVIDER) == Some(0);
    assert FIRST_NO[0] != ORDER[0] && SECOND_NO[0] != ORDER[0] && SECOND_NO[0] != FIRST_NO[0];
    var once := Next(db, Renewed(TEN_CREDITS, session, FIRST_NO));
    assert once.orders == [paid] && once.grants == [CreditGrant(FIRST_NO, USER, 10)];
    RunOfTwo(db, Renewed(TEN_CREDITS, session, FIRST_NO), Renewed(TEN_CREDITS, session, SECOND_NO));
  }

  /** A number stays fresh when a renewal uses another one. */
  lemma StaysFresh(db: Db, renewal: Renewal, session: Session, used: Text, orderNo: Text)
    requires IsFreshOrderNo(db, used) && IsFreshOrderNo(db, orderNo) && used != orderNo
    ensures IsFreshOrderNo(Next(db, Renewed(renewal, session, used)), orderNo)
  {
    hide FindTransaction, WithPeriod;
  }

  /** A renewal that is accepted writes its own billing period. */
  lemma WritesPeriod(db: Db, renewal: Renewal, session: Session, orderNo: Text)
    requires CanRenew(renewal, session)
    ensures Next(db, Renewed(renewal, session, orderNo)).subscriptions
         == WithPeriod(db.subscriptions, renewal.subscriptionNo, session.subscriptionInfo.value)
  {
    hide FindTransaction, HasGrant, WithPeriod;
  }

  /** A renewal delivered again after a later one sets the billing period back. */
  lemma LateRenewalSetsPeriodBack()
    ensures var row := Subscription(SUBSCRIPTION_NO, USER, SUBSCRIPTION_ID, PROVIDER, Some(1), Some(2));
      var db := EMPTY_DB.(subscriptions := [row]);
      var first := RenewalSession(Some(TRANSACTION), 2);
      var run := [Renewed(TEN_CREDITS, first, FIRST_NO)]
        + [Renewed(TEN_CREDITS, RenewalSession(Some(USER), 3), SECOND_NO), Renewed(TEN_CREDITS, first, THIRD_NO)];
      && ValidRun(db, run)
      && After(db, run).subscriptions == [row.(currentPeriodStart := Some(2), currentPeriodEnd := Some(3))]
  {
    hide Next, IsFreshOrderNo, After, ValidRun;
    var row := Subscription(SUBSCRIPTION_NO, USER, SUBSCRIPTION_ID, PROVIDER, Some(1), Some(2));
    var db := EMPTY_DB.(subscriptions := [row]);
    var first, second := RenewalSession(Some(TRANSACTION), 2), RenewalSession(Some(USER), 3);
    NumbersFresh(db);
    StaysFresh(db, TEN_CREDITS, first, FIRST_NO, SECOND_NO);
    StaysFresh(db, TEN_CREDITS, first, FIRST_NO, THIRD_NO);
    var once := Next(db, Renewed(TEN_CREDITS, first, FIRST_NO));
    StaysFresh(once, TEN_CREDITS, second, SECOND_NO, THIRD_NO);
    var twice := Next(once, Renewed(TEN_CREDITS, second, SECOND_NO));
    WritesPeriod(db, TEN_CREDITS, first, FIRST_NO);
    WritesPeriod(once, TEN_CREDITS, second, SECOND_NO);
    WritesPeriod(twice, TEN_CREDITS, first, THIRD_NO);
    RunOfTwo(once, Renewed(TEN_CREDITS, second, SECOND_NO), Renewed(TEN_CREDITS, first, THIRD_NO));
    RunStep(db, Renewed(TEN_CREDITS, first, FIRST_NO),
      [Renewed(TEN_CREDITS, second, SECOND_NO), Renewed(TEN_CREDITS, first, THIRD_NO)]);
  }

  lemma NumbersFresh(db: Db)
    requires db.orders == [] && db.grants == []
    ensures IsFreshOrderNo(db, FIRST_NO) && IsFreshOrderNo(db, SECOND_NO) && IsFreshOrderNo(db, THIRD_NO)
    ensures FIRST_NO != SECOND_NO && FIRST_NO != THIRD_NO && SECOND_NO != THIRD_NO
  {
    assert FIRST_NO[0] != SECOND_NO[0] && FIRST_NO[0] != THIRD_NO[0] && SECOND_NO[0] != THIRD_NO[0];
  }
}
