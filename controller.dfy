/** The user controller as the server runs it: the module-level OTP map and
    the two collections are fields that each handler updates in place. Each
    method is proved to have exactly the effect and reply of the matching
    step in `Handlers`. */
module Controller {
  import opened Records
  import opened Plans
  import Handlers

  class UserController {
    var otpStore: map<Email, OtpEntry>
    var users: map<UserId, User>
    var transactions: map<TxId, Transaction>
    var nextUserId: nat
    var nextTxId: nat
    /** The user schema's default `creditBalance`. */
    const defaultCredits: int

    function State(): Db
      reads this
    {
      Db(otpStore, users, transactions, nextUserId, nextTxId)
    }

    ghost predicate Valid()
      reads this
    {
      Records.Valid(State())
    }

    /** The process starts with an empty OTP map (it lives in memory only)
        and connects to the collections as the database holds them. */
    constructor (db0: Db, defaultCredits: int)
      requires Records.Valid(db0) && db0.otpStore == map[]
      ensures Valid() && this.defaultCredits == defaultCredits
      ensures State() == db0
    {
      otpStore := map[];
      users, transactions := db0.users, db0.transactions;
      nextUserId, nextTxId := db0.nextUserId, db0.nextTxId;
      this.defaultCredits := defaultCredits;
    }

    method SendOtp(email: Email, random: real, now: int, mailError: Option<string>) returns (reply: Reply)
      requires Valid() && 0.0 <= random < 1.0
      modifies this
      ensures Valid()
      ensures Step(State(), reply) == Handlers.SendOtp(old(State()), email, random, now, mailError)
    {
      if email == "" {
        return Failure(EmailRequired);
      }
      var existing := FindUser(users, email, nextUserId);
      if existing.Some? {
        return Failure(UserExists);
      }
      var otp := Handlers.IssuedCode(random);
      otpStore := otpStore[email := OtpEntry(otp, now + Handlers.OtpLifetime)];
      match mailError {
        case None => reply := Done(OtpSent);
        case Some(msg) => reply := Failure(msg);
      }
    }

    method VerifyOtp(email: Email, otp: string, now: int) returns (reply: Reply)
      requires Valid()
      modifies this
      ensures Valid()
      ensures Step(State(), reply) == Handlers.VerifyOtp(old(State()), email, otp, now)
    {
      if email !in otpStore {
        return Failure(OtpNotFound);
      }
      var data := otpStore[email];
      if data.expiresAt < now {
        otpStore := otpStore - {email};
        return Failure(OtpExpired);
      }
      if data.otp != otp {
        return Failure(InvalidOtp);
      }
      otpStore := otpStore - {email};
      reply := Done(OtpVerified);
    }

    method RegisterUser(name: string, email: Email, password: string, salt: nat) returns (reply: Reply)
      requires Valid()
      modifies this
      ensures Valid()
      ensures Step(State(), reply) == Handlers.Register(old(State()), name, email, password, salt, defaultCredits)
    {
      if name == "" || email == "" || password == "" {
        return Failure(MissingDetails);
      }
      var existing := FindUser(users, email, nextUserId);
      if existing.Some? {
        return Failure(UserExists);
      }
      var hashed := Hash(password, salt);
      var id := nextUserId;
      users := users[id := User(name, email, hashed, defaultCredits)];
      nextUserId := id + 1;
      reply := SignedIn(Token(id), name);
    }

    method LoginUser(email: Email, password: string) returns (reply: Reply)
      requires Valid()
      ensures reply == Handlers.Login(State(), email, password)
    {
      var found := FindUser(users, email, nextUserId);
      if found.None? {
        return Failure(UserNotFound);
      }
      var user := users[found.value];
      if Compare(password, user.password) {
        reply := SignedIn(Token(found.value), user.name);
      } else {
        reply := Failure(InvalidCredentials);
      }
    }

    method UserCredits(userId: UserId) returns (reply: Reply)
      ensures reply == Handlers.UserCredits(State(), userId)
    {
      if userId !in users {
        return Failure(NullRead("creditBalance"));
      }
      var user := users[userId];
      reply := Balance(user.creditBalance, user.name);
    }

    method PaymentRazorpay(userId: Option<UserId>, planId: string, now: int) returns (reply: Reply)
      requires Valid()
      modifies this
      ensures Valid()
      ensures Step(State(), reply) == Handlers.PaymentRazorpay(old(State()), userId, planId, now)
    {
      if userId.None? || planId == "" {
        return Failure(MissingDetails);
      }
      var plan := PlanFor(planId);
      if plan.None? {
        return Failure(PlanNotFound);
      }
      var p := plan.value;
      var t := nextTxId;
      transactions := transactions[t := Transaction(userId.value, p.name, p.amount, p.credits, now, false)];
      nextTxId := t + 1;
      reply := OrderPlaced(Order(SmallestUnit(p.amount), t));
    }

    method VerifyRazorpay(status: string, receipt: TxId) returns (reply: Reply)
      requires Valid()
      modifies this
      ensures Valid()
      ensures Step(State(), reply) == Handlers.VerifyRazorpay(old(State()), status, receipt)
    {
      if status != "paid" {
        return Failure(PaymentFailed);
      }
      if receipt !in transactions {
        return Failure(NullRead("payment"));
      }
      var tx := transactions[receipt];
      if tx.payment {
        return Failure(PaymentFailed);
      }
      if tx.userId !in users {
        return Failure(NullRead("creditBalance"));
      }
      var user := users[tx.userId];
      users := users[tx.userId := user.(creditBalance := user.creditBalance + tx.credits)];
      transactions := transactions[receipt := tx.(payment := true)];
      reply := Done(CreditsAdded);
    }
  }
}
