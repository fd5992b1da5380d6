/** The entities the user controller works on: the in-memory OTP entries,
    the user and transaction documents, the session token, and the reply
    every handler sends back as `{ success, ... }`. The two Mongoose
    collections and the OTP map are gathered in one value, `Db`. */
module Records {

  datatype Option<T> = None | Some(value: T)

  type Email = string
  type UserId = nat
  type TxId = nat

  /** One entry of `otpStore`: the code as a string and its expiry in ms. */
  datatype OtpEntry = OtpEntry(otp: string, expiresAt: int)

  /** bcrypt reads at most the first 72 bytes of a password; the rest is ignored. */
  const BcryptMaxLength := 72

  /** The part of a password that bcrypt hashes. */
  function Significant(password: string): (p: string)
    ensures |p| <= BcryptMaxLength && p <= password
    ensures |password| <= BcryptMaxLength ==> p == password
  {
    if |password| <= BcryptMaxLength then password else password[..BcryptMaxLength]
  }

  /** A bcrypt hash, kept symbolically: a salted one-way hash of the
      significant part of a password, with no collisions beyond that. */
  datatype PasswordHash = Bcrypt(salt: nat, digestOf: string)

  /** `bcrypt.hash(password, salt)`: the hash matches exactly the attempts
      that agree with the password in its first 72 characters, so a password
      shorter than that is matched by itself alone. */
  function Hash(password: string, salt: nat): (h: PasswordHash)
    ensures forall attempt :: Compare(attempt, h) <==> Significant(attempt) == Significant(password)
    ensures |password| < BcryptMaxLength ==> forall attempt :: Compare(attempt, h) <==> attempt == password
  {
    Bcrypt(salt, Significant(password))
  }

  /** `bcrypt.compare(password, hash)`. */
  predicate Compare(password: string, h: PasswordHash) {
    Significant(password) == h.digestOf
  }

  datatype User = User(name: string, email: Email, password: PasswordHash, creditBalance: int)

  /** A credit purchase: who buys, which plan, the price, the credits, the
      creation time and whether the payment has been settled. */
  datatype Transaction = Transaction(
    userId: UserId, plan: string, amount: nat, credits: nat, date: int, payment: bool)

  /** `jwt.sign({ id })`: a session token naming the user. */
  datatype Token = Token(id: UserId)

  /** The options handed to the payment gateway's `orders.create`: the
      amount in the smallest currency unit and the transaction as receipt. */
  datatype Order = Order(amount: nat, receipt: TxId)

  /** The JSON body of a reply; everything but `Failure` has `success: true`. */
  datatype Reply =
    | Failure(message: string)
    | Done(message: string)
    | SignedIn(token: Token, name: string)
    | Balance(credits: int, name: string)
    | OrderPlaced(order: Order)
  {
    predicate Succeeded() { !Failure? }
  }

  const EmailRequired := "Email is required"
  const UserExists := "User already exists"
  const OtpSent := "OTP sent successfully"
  const OtpNotFound := "OTP not found or expired"
  const OtpExpired := "OTP expired"
  const InvalidOtp := "Invalid OTP"
  const OtpVerified := "OTP verified successfully"
  const MissingDetails := "Missing Details"
  const UserNotFound := "User does not exist"
  const InvalidCredentials := "Invalid credentials"
  const PlanNotFound := "Plan not found"
  const PaymentFailed := "Payment Failed"
  const CreditsAdded := "Credits Added"
  /** The message of the TypeError that Node's engine raises when a handler
      reads `field` of a document that `findById` did not find; the handler's
      catch block replies with `error.message`. */
  function NullRead(field: string): (message: string)
    ensures |message| == |NullReadPrefix| + |field| + 2
    ensures message[..|NullReadPrefix|] == NullReadPrefix
    ensures message[|NullReadPrefix|..|NullReadPrefix| + |field|] == field
  {
    NullReadPrefix + field + "')"
  }

  const NullReadPrefix := "Cannot read properties of null (reading '"

  /** The server's state: the OTP map and the two collections. Documents are
      keyed by id; `nextUserId` and `nextTxId` stand for the database's
      supply of fresh ids. */
  datatype Db = Db(
    otpStore: map<Email, OtpEntry>,
    users: map<UserId, User>,
    transactions: map<TxId, Transaction>,
    nextUserId: nat,
    nextTxId: nat)

  /** A handler's effect: the state afterwards and the reply sent. */
  datatype Step = Step(db: Db, reply: Reply)

  /** At most one user per email. */
  ghost predicate UniqueEmails(users: map<UserId, User>) {
    forall a, b :: a in users && b in users && users[a].email == users[b].email ==> a == b
  }

  /** The invariant every handler keeps: unique emails, and every id in use
      was handed out before. */
  ghost predicate Valid(db: Db) {
    && UniqueEmails(db.users)
    && (forall id :: id in db.users ==> id < db.nextUserId)
    && (forall t :: t in db.transactions ==> t < db.nextTxId)
  }

  ghost predicate EmailTaken(db: Db, email: Email) {
    exists id :: id in db.users && db.users[id].email == email
  }

  /** `findOne({ email })` over the ids below `bound`. */
  function FindUser(users: map<UserId, User>, email: Email, bound: nat): (r: Option<UserId>)
    ensures r.Some? ==> r.value < bound && r.value in users && users[r.value].email == email
    ensures r.None? ==> forall id :: id < bound && id in users ==> users[id].email != email
    decreases bound
  {
    if bound == 0 then None
    else if bound - 1 in users && users[bound - 1].email == email then Some(bound - 1)
    else FindUser(users, email, bound - 1)
  }

  /** `userModel.findOne({ email })`: in a valid state, the one user with
      that email, if there is one. */
  function UserWithEmail(db: Db, email: Email): (r: Option<UserId>)
    requires Valid(db)
    ensures r.None? <==> !EmailTaken(db, email)
    ensures r.Some? ==> r.value in db.users && db.users[r.value].email == email
    ensures forall id :: id in db.users && db.users[id].email == email ==> r == Some(id)
  {
    FindUser(db.users, email, db.nextUserId)
  }
}
