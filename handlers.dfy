/** Each request handler of the user controller as a step from one server
    state to the next, with the reply it sends. The clock (`Date.now()`),
    the random source (`Math.random()`), the bcrypt salt, the outcome of
    sending the mail and the payment gateway's answer are parameters. */
module Handlers {
  import opened Records
  import opened Decimal
  import opened Plans

  /** An OTP stays valid for five minutes, in milliseconds. */
  const OtpLifetime: int := 5 * 60 * 1000

  /** The six-digit code `Math.floor(100000 + Math.random() * 900000)`. */
  function OtpCode(random: real): (code: nat)
    requires 0.0 <= random < 1.0
    ensures 100000 <= code <= 999999
  {
    (100000.0 + random * 900000.0).Floor
  }

  /** A code as it is mailed and stored: six decimal digits, no leading zero. */
  predicate IsOtpCode(s: string) {
    |s| == 6 && Canonical(s) && 100000 <= ParseDecimal(s) <= 999999
  }

  /** The code's text, `.toString()` of the number drawn. */
  function IssuedCode(random: real): (s: string)
    requires 0.0 <= random < 1.0
    ensures IsOtpCode(s) && ParseDecimal(s) == OtpCode(random)
  {
    var n := OtpCode(random);
    DecimalStringLength(n, 5);
    ParseOfDecimalString(n);
    DecimalString(n)
  }

  // ----------------------------------------------------------------- OTP

  /** `sendOTP`. The entry is written before the mail is sent, so a mail
      failure (`mailError`) still leaves the new code in the store. */
  function SendOtp(db: Db, email: Email, random: real, now: int, mailError: Option<string>): (s: Step)
    requires Valid(db)
    requires 0.0 <= random < 1.0
    ensures Valid(s.db)
    ensures email == "" ==> s == Step(db, Failure(EmailRequired))
    ensures email != "" && EmailTaken(db, email) ==> s == Step(db, Failure(UserExists))
    ensures email != "" && !EmailTaken(db, email) ==>
      && email in s.db.otpStore
      && IsOtpCode(s.db.otpStore[email].otp)
      && s.db.otpStore[email].expiresAt == now + OtpLifetime
      && s.db.otpStore - {email} == db.otpStore - {email}
      && s.db.(otpStore := db.otpStore) == db
      && s.reply == (if mailError.None? then Done(OtpSent) else Failure(mailError.value))
  {
    if email == "" then Step(db, Failure(EmailRequired))
    else if UserWithEmail(db, email).Some? then Step(db, Failure(UserExists))
    else
      var entry := OtpEntry(IssuedCode(random), now + OtpLifetime);
      var db' := db.(otpStore := db.otpStore[email := entry]);
      assert db'.otpStore - {email} == db.otpStore - {email};
      match mailError
      case None => Step(db', Done(OtpSent))
      case Some(msg) => Step(db', Failure(msg))
  }

  /** `verifyOTP`: absent, expired (strictly before `now`), wrong, or right
      and then consumed. */
  function VerifyOtp(db: Db, email: Email, otp: string, now: int): (s: Step)
    ensures Valid(db) ==> Valid(s.db)
    ensures email !in db.otpStore ==> s == Step(db, Failure(OtpNotFound))
    ensures email in db.otpStore && db.otpStore[email].expiresAt < now ==>
      s == Step(db.(otpStore := db.otpStore - {email}), Failure(OtpExpired))
    ensures email in db.otpStore && now <= db.otpStore[email].expiresAt && otp != db.otpStore[email].otp ==>
      s == Step(db, Failure(InvalidOtp))
    ensures s.reply.Succeeded() <==>
      email in db.otpStore && now <= db.otpStore[email].expiresAt && otp == db.otpStore[email].otp
    ensures s.reply.Succeeded() ==> s == Step(db.(otpStore := db.otpStore - {email}), Done(OtpVerified))
  {
    if email !in db.otpStore then Step(db, Failure(OtpNotFound))
    else
      var entry := db.otpStore[email];
      if entry.expiresAt < now then Step(db.(otpStore := db.otpStore - {email}), Failure(OtpExpired))
      else if entry.otp != otp then Step(db, Failure(InvalidOtp))
      else Step(db.(otpStore := db.otpStore - {email}), Done(OtpVerified))
  }

  // ------------------------------------------------------ register, login

  /** `registerUser`. The OTP store is neither consulted nor changed. */
  function Register(db: Db, name: string, email: Email, password: string, salt: nat, defaultCredits: int): (s: Step)
    requires Valid(db)
    ensures Valid(s.db)
    ensures name == "" || email == "" || password == "" ==> s == Step(db, Failure(MissingDetails))
    ensures name != "" && email != "" && password != "" && EmailTaken(db, email) ==>
      s == Step(db, Failure(UserExists))
    ensures s.reply.Failure? ==> s.db == db
    ensures s.reply.SignedIn? <==> name != "" && email != "" && password != "" && !EmailTaken(db, email)
    ensures s.reply.SignedIn? ==>
      && s.reply.token.id !in db.users
      && s.db.users == db.users[s.reply.token.id := User(name, email, Hash(password, salt), defaultCredits)]
      && |s.db.users| == |db.users| + 1
      && s.reply.name == name
      && s.db.otpStore == db.otpStore
      && s.db.transactions == db.transactions
  {
    if name == "" || email == "" || password == "" then Step(db, Failure(MissingDetails))
    else if UserWithEmail(db, email).Some? then Step(db, Failure(UserExists))
    else
      var id := db.nextUserId;
      var user := User(name, email, Hash(password, salt), defaultCredits);
      var db' := db.(users := db.users[id := user], nextUserId := id + 1);
      assert UniqueEmails(db'.users) by {
        forall a, b | a in db'.users && b in db'.users && db'.users[a].email == db'.users[b].email
          ensures a == b
        {
          if a != id && b != id {
            assert db'.users[a] == db.users[a] && db'.users[b] == db.users[b];
          }
        }
      }
      Step(db', SignedIn(Token(id), name))
  }

  /** `loginUser`: unknown email, wrong password, or a token for the user. */
  function Login(db: Db, email: Email, password: string): (r: Reply)
    requires Valid(db)
    ensures !EmailTaken(db, email) ==> r == Failure(UserNotFound)
    ensures r.SignedIn? <==>
      exists id :: id in db.users && db.users[id].email == email && Compare(password, db.users[id].password)
    ensures r.SignedIn? ==>
      r.token.id in db.users && db.users[r.token.id].email == email && r.name == db.users[r.token.id].name
    ensures EmailTaken(db, email) && !r.SignedIn? ==> r == Failure(InvalidCredentials)
  {
    match UserWithEmail(db, email)
    case None => Failure(UserNotFound)
    case Some(id) =>
      var user := db.users[id];
      if Compare(password, user.password) then SignedIn(Token(id), user.name)
      else Failure(InvalidCredentials)
  }

  /** `userCredits`: the balance, or the TypeError of reading the balance of
      a missing user. */
  function UserCredits(db: Db, userId: UserId): (r: Reply)
    ensures r.Succeeded() <==> userId in db.users
    ensures userId in db.users ==> r == Balance(db.users[userId].creditBalance, db.users[userId].name)
    ensures userId !in db.users ==> r == Failure(NullRead("creditBalance"))
  {
    if userId in db.users then Balance(db.users[userId].creditBalance, db.users[userId].name)
    else Failure(NullRead("creditBalance"))
  }

  // -------------------------------------------------------------- payment

  /** `paymentRazorpay`: record a pending transaction for a known plan and
      build the order for the gateway. The user id is not looked up. */
  function PaymentRazorpay(db: Db, userId: Option<UserId>, planId: string, now: int): (s: Step)
    requires Valid(db)
    ensures Valid(s.db)
    ensures userId.None? || planId == "" ==> s == Step(db, Failure(MissingDetails))
    ensures userId.Some? && planId != "" && PlanFor(planId).None? ==> s == Step(db, Failure(PlanNotFound))
    ensures s.reply.Failure? ==> s.db == db
    ensures s.reply.OrderPlaced? <==> userId.Some? && PlanFor(planId).Some?
    ensures s.reply.OrderPlaced? ==>
      var plan := PlanFor(planId).value;
      var t := s.reply.order.receipt;
      && t !in db.transactions
      && s.db.transactions == db.transactions[t := Transaction(userId.value, plan.name, plan.amount, plan.credits, now, false)]
      && s.reply.order.amount == plan.amount * 100
      && s.db.users == db.users
      && s.db.otpStore == db.otpStore
  {
    if userId.None? || planId == "" then Step(db, Failure(MissingDetails))
    else
      match PlanFor(planId)
      case None => Step(db, Failure(PlanNotFound))
      case Some(plan) =>
        var t := db.nextTxId;
        var tx := Transaction(userId.value, plan.name, plan.amount, plan.credits, now, false);
        var db' := db.(transactions := db.transactions[t := tx], nextTxId := t + 1);
        Step(db', OrderPlaced(Order(SmallestUnit(plan.amount), t)))
  }

  /** `verifyRazorpay`, given the order's status and receipt as the gateway
      reports them: settle an unsettled transaction once. */
  function VerifyRazorpay(db: Db, status: string, receipt: TxId): (s: Step)
    ensures Valid(db) ==> Valid(s.db)
    ensures status != "paid" ==> s == Step(db, Failure(PaymentFailed))
    ensures s.reply.Failure? ==> s.db == db
    ensures status == "paid" && receipt !in db.transactions ==> s.reply == Failure(NullRead("payment"))
    ensures status == "paid" && receipt in db.transactions && db.transactions[receipt].payment ==>
      s.reply == Failure(PaymentFailed)
    ensures status == "paid" && receipt in db.transactions && !db.transactions[receipt].payment
            && db.transactions[receipt].userId !in db.users ==>
      s.reply == Failure(NullRead("creditBalance"))
    ensures s.reply.Succeeded() <==>
      && status == "paid"
      && receipt in db.transactions
      && !db.transactions[receipt].payment
      && db.transactions[receipt].userId in db.users
    ensures s.reply.Succeeded() ==>
      var t := db.transactions[receipt];
      var u := db.users[t.userId];
      && s.reply == Done(CreditsAdded)
      && s.db.users == db.users[t.userId := u.(creditBalance := u.creditBalance + t.credits)]
      && s.db.transactions == db.transactions[receipt := t.(payment := true)]
      && s.db.otpStore == db.otpStore
  {
    if status != "paid" then Step(db, Failure(PaymentFailed))
    else if receipt !in db.transactions then Step(db, Failure(NullRead("payment")))
    else
      var t := db.transactions[receipt];
      if t.payment then Step(db, Failure(PaymentFailed))
      else if t.userId !in db.users then Step(db, Failure(NullRead("creditBalance")))
      else
        var u := db.users[t.userId];
        Step(db.(users := db.users[t.userId := u.(creditBalance := u.creditBalance + t.credits)],
                 transactions := db.transactions[receipt := t.(payment := true)]),
             Done(CreditsAdded))
  }
}
