/** Properties that relate several requests: the life of an OTP, the
    uniqueness of accounts, logging in after signing up, and settling a
    payment at most once. */
module Properties {
  import opened Records
  import opened Plans
  import opened Handlers

  // ----------------------------------------------------------------- OTP

  /** A code that was issued verifies up to and including its expiry instant,
      and is rejected as expired one millisecond later. This holds even when
      the mail could not be sent. */
  lemma IssuedCodeVerifiesUntilExpiry(db: Db, email: Email, random: real, now: int,
                                      mailError: Option<string>, later: int)
    requires Valid(db) && 0.0 <= random < 1.0
    requires email != "" && !EmailTaken(db, email)
    ensures var s := SendOtp(db, email, random, now, mailError);
      var code := s.db.otpStore[email].otp;
      && (later <= now + OtpLifetime ==> VerifyOtp(s.db, email, code, later).reply == Done(OtpVerified))
      && (later > now + OtpLifetime ==> VerifyOtp(s.db, email, code, later).reply == Failure(OtpExpired))
  {
  }

  /** A new request for the same email replaces the earlier code: only the
      latest entry is ever checked. */
  lemma LatestCodeWins(db: Db, email: Email, r1: real, t1: int, m1: Option<string>,
                       r2: real, t2: int, m2: Option<string>)
    requires Valid(db) && 0.0 <= r1 < 1.0 && 0.0 <= r2 < 1.0
    requires email != "" && !EmailTaken(db, email)
    ensures var s1 := SendOtp(db, email, r1, t1, m1);
      var s2 := SendOtp(s1.db, email, r2, t2, m2);
      && s2.db.otpStore[email].otp == IssuedCode(r2)
      && s2.db.otpStore[email].expiresAt == t2 + OtpLifetime
  {
  }

  /** An OTP is single use: once verified, the same code is not found. */
  lemma OtpSingleUse(db: Db, email: Email, otp: string, now: int, later: int)
    requires VerifyOtp(db, email, otp, now).reply.Succeeded()
    ensures VerifyOtp(VerifyOtp(db, email, otp, now).db, email, otp, later).reply == Failure(OtpNotFound)
  {
  }

  /** A wrong guess leaves the entry, so the right code still succeeds
      before the expiry. */
  lemma WrongCodeKeepsEntry(db: Db, email: Email, wrong: string, now: int, later: int)
    requires VerifyOtp(db, email, wrong, now).reply == Failure(InvalidOtp)
    requires later <= db.otpStore[email].expiresAt
    ensures VerifyOtp(VerifyOtp(db, email, wrong, now).db, email, db.otpStore[email].otp, later).reply
            == Done(OtpVerified)
  {
  }

  /** An expired entry is removed when it is found expired: afterwards even
      the right code is reported as not found. */
  lemma ExpiredEntryIsRemoved(db: Db, email: Email, otp: string, now: int, later: int)
    requires VerifyOtp(db, email, otp, now).reply == Failure(OtpExpired)
    ensures VerifyOtp(VerifyOtp(db, email, otp, now).db, email, db.otpStore[email].otp, later).reply
            == Failure(OtpNotFound)
  {
  }

  // ------------------------------------------------------ register, login

  /** Registering an email a second time fails, whatever the other fields,
      and leaves the state as the first registration left it. */
  lemma RegisterTwiceFails(db: Db, name: string, email: Email, password: string, salt: nat,
                           name2: string, password2: string, salt2: nat, defaultCredits: int)
    requires Valid(db)
    requires Register(db, name, email, password, salt, defaultCredits).reply.Succeeded()
    ensures var s1 := Register(db, name, email, password, salt, defaultCredits);
      var s2 := Register(s1.db, name2, email, password2, salt2, defaultCredits);
      && s2.db == s1.db
      && s2.reply == (if name2 == "" || password2 == "" then Failure(MissingDetails) else Failure(UserExists))
  {
  }

  /** Registration is not gated on the OTP: its outcome is the same whatever
      the OTP store holds, verified or not. */
  lemma RegistrationIgnoresOtp(db: Db, store: map<Email, OtpEntry>, name: string, email: Email,
                               password: string, salt: nat, defaultCredits: int)
    requires Valid(db)
    ensures var s := Register(db, name, email, password, salt, defaultCredits);
      var s' := Register(db.(otpStore := store), name, email, password, salt, defaultCredits);
      s'.reply == s.reply && s'.db == s.db.(otpStore := store)
  {
  }

  /** After signing up, logging in with a password that agrees with the
      registered one in bcrypt's first 72 characters yields a token for the
      new account, and any other password is refused. */
  lemma RegisterThenLogin(db: Db, name: string, email: Email, password: string, salt: nat,
                          defaultCredits: int, attempt: string)
    requires Valid(db)
    requires Register(db, name, email, password, salt, defaultCredits).reply.Succeeded()
    ensures var s := Register(db, name, email, password, salt, defaultCredits);
      && (Significant(attempt) == Significant(password) ==> Login(s.db, email, attempt) == SignedIn(s.reply.token, name))
      && (Significant(attempt) != Significant(password) ==> Login(s.db, email, attempt) == Failure(InvalidCredentials))
      && (attempt == password ==> Login(s.db, email, attempt) == SignedIn(s.reply.token, name))
  {
  }

  /** bcrypt ignores what follows the 72nd character: a password longer than
      that is also accepted when only its first 72 characters are typed,
      and so is any attempt that changes only the ignored tail. */
  lemma LongPasswordTailIgnored(db: Db, name: string, email: Email, password: string, salt: nat,
                                defaultCredits: int, tail: string)
    requires Valid(db) && |password| > BcryptMaxLength
    requires Register(db, name, email, password, salt, defaultCredits).reply.Succeeded()
    ensures var s := Register(db, name, email, password, salt, defaultCredits);
      && Login(s.db, email, password[..BcryptMaxLength]) == SignedIn(s.reply.token, name)
      && Login(s.db, email, password[..BcryptMaxLength] + tail) == SignedIn(s.reply.token, name)
  {
    var attempt := password[..BcryptMaxLength] + tail;
    assert attempt[..BcryptMaxLength] == password[..BcryptMaxLength];
  }

  /** A new account starts with the schema's default balance. */
  lemma NewAccountBalance(db: Db, name: string, email: Email, password: string, salt: nat,
                          defaultCredits: int)
    requires Valid(db)
    requires Register(db, name, email, password, salt, defaultCredits).reply.Succeeded()
    ensures var s := Register(db, name, email, password, salt, defaultCredits);
      UserCredits(s.db, s.reply.token.id) == Balance(defaultCredits, name)
  {
  }

  // -------------------------------------------------------------- payment

  /** The gateway's confirmation for one order, received `k` times. */
  ghost function VerifyRepeatedly(db: Db, receipt: TxId, k: nat): Db
    decreases k
  {
    if k == 0 then db else VerifyRepeatedly(VerifyRazorpay(db, "paid", receipt).db, receipt, k - 1)
  }

  /** A settled transaction is inert: confirming it again changes nothing. */
  lemma {:induction false} SettledOrderIsInert(db: Db, receipt: TxId, k: nat)
    requires receipt in db.transactions && db.transactions[receipt].payment
    ensures VerifyRepeatedly(db, receipt, k) == db
    decreases k
  {
    if k > 0 {
      SettledOrderIsInert(VerifyRazorpay(db, "paid", receipt).db, receipt, k - 1);
    }
  }

  /** However many times an order is confirmed, its user is credited once,
      by exactly the transaction's credits, and nothing else changes. */
  lemma {:induction false} CreditedExactlyOnce(db: Db, receipt: TxId, k: nat)
    requires k >= 1
    requires receipt in db.transactions && !db.transactions[receipt].payment
    requires db.transactions[receipt].userId in db.users
    ensures var t := db.transactions[receipt];
      var d := VerifyRepeatedly(db, receipt, k);
      && d.users == db.users[t.userId := db.users[t.userId].(creditBalance := db.users[t.userId].creditBalance + t.credits)]
      && d.transactions == db.transactions[receipt := t.(payment := true)]
      && d.otpStore == db.otpStore
  {
    var s := VerifyRazorpay(db, "paid", receipt);
    SettledOrderIsInert(s.db, receipt, k - 1);
  }

  /** Buying a plan and having the order confirmed raises the buyer's
      balance by the plan's credits; a repeated confirmation adds nothing. */
  lemma PurchaseCreditsPlan(db: Db, userId: UserId, planId: string, now: int)
    requires Valid(db) && userId in db.users && PlanFor(planId).Some?
    ensures var p := PaymentRazorpay(db, Some(userId), planId, now);
      var v1 := VerifyRazorpay(p.db, "paid", p.reply.order.receipt);
      var v2 := VerifyRazorpay(v1.db, "paid", p.reply.order.receipt);
      && v1.reply == Done(CreditsAdded)
      && UserCredits(v1.db, userId).credits == db.users[userId].creditBalance + PlanFor(planId).value.credits
      && v2 == Step(v1.db, Failure(PaymentFailed))
  {
  }
}
