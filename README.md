# Imagify user controller, modelled in Dafny

Imagify is a text-to-image web service. Its server keeps the account and
credit rules in one Express controller, `server/controllers/userController.js`.
This project models that controller's state machine and proves its rules:

- **OTP store.** An in-memory map from email to `{ otp, expiresAt }`.
  `sendOTP` writes a six-digit code that lives five minutes. `verifyOTP`
  checks for a missing entry, an expired entry (deleted when found) and a wrong
  code. A correct code is consumed.
- **User table.** `registerUser` rejects missing fields and an email already
  in use, hashes the password and adds exactly one user. `loginUser` tells an
  unknown email apart from a wrong password. `userCredits` reports the balance.
- **Plans and payment.** `paymentRazorpay` maps a plan id to (credits, price),
  records a pending transaction and builds the gateway order in hundredths.
  `verifyRazorpay` credits the buyer only while the transaction's `payment`
  flag is unset, then sets it. So an order is credited at most once.

Layout:

- `decimal.dfy` holds the decimal text of numbers, used for the OTP's `toString()`, and its inverse.
- `records.dfy` holds the documents, the reply shapes and messages, the state
  value `Db` with its invariant (unique emails, fresh ids), the `findOne({ email })`
  lookup, and a symbolic bcrypt that reads only the first 72 characters of a password.
- `plans.dfy` holds the plan table and the conversion to hundredths.
- `handlers.dfy` gives each handler as a function from the state to the next state and its reply.
- `properties.dfy` holds lemmas that chain several requests.
- `controller.dfy` holds the class `UserController`. Its fields are the maps, and
  its methods update them in place. Each method is proved equal to its step in `handlers.dfy`.

Environment inputs are parameters:

- the clock (`Date.now()`): `now`, in milliseconds;
- `Math.random()`: a real in [0, 1);
- the bcrypt salt;
- the outcome of sending the mail;
- the defaults of the Mongoose user schema;
- the contents of the two collections when the process starts;
- the gateway's reported order status and receipt.

Four behaviours of the code are easy to misread:

- Registration is not gated on a verified OTP. The check is commented out at
  `server/controllers/userController.js:88-91`. `RegistrationIgnoresOtp` proves
  this.
- The expiry test is `expiresAt < now`. A code is therefore still accepted at
  exactly five minutes.
- `verifyRazorpay` writes the balance and the flag in two separate updates. It
  does not update them atomically. The sequential model runs them as one step.
- `paymentRazorpay` never checks that the user exists. It records a
  transaction for any user id it is given.

## Model

| member | source | states |
|---|---|---|
| Decimal.DecimalString | server/controllers/userController.js:20 | the text of the code is canonical decimal (digits only, no leading zero) and has one character exactly when the number is below 10 |
| Decimal.ParseDecimal | server/controllers/userController.js:20 | a digit string of length k denotes a number below 10^k |
| Decimal.ParseOfDecimalString | server/controllers/userController.js:20 | reading back the text of a number gives the number (round trip) |
| Decimal.DecimalStringOfParse | server/controllers/userController.js:20 | every canonical digit string is the text of its number, so text and number are in bijection |
| Decimal.DecimalStringLength | server/controllers/userController.js:20 | a number in [10^k, 10^(k+1)) has a text of k+1 characters |
| Handlers.OtpCode | server/controllers/userController.js:20 | `floor(100000 + r * 900000)` for r in [0, 1) lies in [100000, 999999] |
| Handlers.IssuedCode | server/controllers/userController.js:20 | the stored code is a six-character canonical decimal string whose value is the number drawn |
| Records.Hash | server/controllers/userController.js:93-94 | a hash made from a password matches, under compare, exactly the attempts that agree with it in the first 72 characters; a password shorter than 72 characters is matched by itself alone |
| Records.FindUser | server/controllers/userController.js:17 | a found id is a user with that email; none found means no user below the bound has it |
| Records.UserWithEmail | server/controllers/userController.js:83 | in a valid state the lookup finds a user exactly when the email is taken, and then the only one |
| Plans.PlanFor | server/controllers/userController.js:169-187 | Basic is (100 credits, 10), Advanced (500, 50), Business (5000, 250); any other id has no plan; a plan's name is its id |
| Plans.SmallestUnit | server/controllers/userController.js:195 | the order amount is a whole number of hundredths from which the price is recovered exactly |
| Handlers.SendOtp | server/controllers/userController.js:12-48 | empty or registered email fails with the state unchanged; otherwise that email alone gets a six-digit code expiring at now + 300000, other entries and the collections are untouched, and a mail failure is reported after the entry is written |
| Handlers.VerifyOtp | server/controllers/userController.js:51-72 | no entry fails with the state unchanged; an entry with expiresAt < now fails and is deleted; a wrong code fails with the entry kept; success iff the entry exists, now <= expiresAt and the code matches, and then the entry is removed |
| Handlers.Register | server/controllers/userController.js:75-111 | missing field or taken email fails with the state unchanged; success iff all fields are present and the email is free, adding exactly one user under a fresh id with the hashed password, the given name and the default balance, leaving the OTP store alone; unique emails are preserved |
| Handlers.Login | server/controllers/userController.js:114-136 | unknown email gives "User does not exist"; a token is issued iff some user with that email matches the password, and it names that user; otherwise "Invalid credentials" |
| Handlers.UserCredits | server/controllers/userController.js:139-150 | the balance and name of an existing user; a missing user gives the TypeError "Cannot read properties of null (reading 'creditBalance')" |
| Handlers.PaymentRazorpay | server/controllers/userController.js:159-213 | missing user id or plan id fails; an unknown plan fails with "Plan not found"; both leave the state unchanged; otherwise exactly one unsettled transaction with the plan's credits and price is added under a fresh id, the order amount is price * 100 and its receipt is that transaction |
| Handlers.VerifyRazorpay | server/controllers/userController.js:216-244 | any status but "paid" fails with nothing changed; an already settled transaction fails with nothing changed; a missing transaction fails with "… (reading 'payment')" and a missing user with "… (reading 'creditBalance')", both with nothing changed; success iff paid, the transaction exists, is unsettled and its user exists, and then that user's balance rises by exactly the transaction's credits, the flag is set, and nothing else changes |
| Properties.IssuedCodeVerifiesUntilExpiry | server/controllers/userController.js:20-23 | an issued code verifies at any time up to and including now + 300000 and is expired after, even if the mail failed |
| Properties.LatestCodeWins | server/controllers/userController.js:23 | a second request for the same email overwrites the code and the expiry |
| Properties.OtpSingleUse | server/controllers/userController.js:65-66 | once verified, the same code is not found |
| Properties.WrongCodeKeepsEntry | server/controllers/userController.js:63 | after a wrong guess the right code still succeeds before expiry |
| Properties.ExpiredEntryIsRemoved | server/controllers/userController.js:58-61 | after an expiry rejection even the right code is not found |
| Properties.RegisterTwiceFails | server/controllers/userController.js:83-86 | a second registration of the same email fails and changes nothing |
| Properties.RegistrationIgnoresOtp | server/controllers/userController.js:88-91 | the outcome of registration does not depend on the OTP store |
| Properties.RegisterThenLogin | server/controllers/userController.js:123-129 | after sign-up, an attempt that agrees with the password in its first 72 characters (in particular the password itself) logs in to the new account, and any other attempt is refused |
| Properties.LongPasswordTailIgnored | server/controllers/userController.js:123 | for a password longer than 72 characters, its first 72 characters, with any tail, log in |
| Properties.NewAccountBalance | server/controllers/userController.js:96-100 | a new account reports the schema's default balance |
| Properties.SettledOrderIsInert | server/controllers/userController.js:225-227 | confirming a settled order any number of times leaves the state unchanged |
| Properties.CreditedExactlyOnce | server/controllers/userController.js:222-234 | confirming an unsettled order k >= 1 times credits its user exactly once by its credits and settles it |
| Properties.PurchaseCreditsPlan | server/controllers/userController.js:159-244 | buying a plan and confirming the order raises the balance by the plan's credits; a repeated confirmation fails and changes nothing |
| Controller.UserController.constructor | server/controllers/userController.js:9 | the process starts with an empty OTP store, held in memory only, and with the collections as the database holds them, in a valid state |
| Controller.UserController.SendOtp | server/controllers/userController.js:12-48 | the in-place update of the OTP map has exactly the effect and reply of `Handlers.SendOtp` and keeps the invariant |
| Controller.UserController.VerifyOtp | server/controllers/userController.js:51-72 | the in-place deletions have exactly the effect and reply of `Handlers.VerifyOtp` |
| Controller.UserController.RegisterUser | server/controllers/userController.js:75-111 | the insertion has exactly the effect and reply of `Handlers.Register` and keeps emails unique |
| Controller.UserController.LoginUser | server/controllers/userController.js:114-136 | the reply is that of `Handlers.Login`; nothing is changed |
| Controller.UserController.UserCredits | server/controllers/userController.js:139-150 | the reply is that of `Handlers.UserCredits`; nothing is changed |
| Controller.UserController.PaymentRazorpay | server/controllers/userController.js:159-213 | the insertion of the transaction has exactly the effect and reply of `Handlers.PaymentRazorpay` |
| Controller.UserController.VerifyRazorpay | server/controllers/userController.js:216-244 | the two updates have exactly the effect and reply of `Handlers.VerifyRazorpay` |

## Left out

- Mail sending through Nodemailer (`server/controllers/userController.js:25-40`) is left out: the transport and the text of the mail are I/O. Only its failure is modelled, as an optional error message that becomes the reply after the entry has been written.
- Records.Hash: bcrypt (`genSalt(10)`, `hash`, `compare`) is a symbolic hash that ignores everything after the first 72 characters and has no other collisions. bcrypt's limit is 72 UTF-8 bytes: for passwords outside ASCII the model cuts at a different point. The cost factor and the algorithm are left out, and the salt is a parameter.
- JWT signing is modelled as a token that carries the user id. The secret, the signature and the 30-day expiry of the OAuth route in `server/routes/authGoogleRoute.js` are left out.
- Google OAuth through Passport is left out. It is a delegated identity provider.
- From the Razorpay SDK, `orders.create` is left out: the model returns the options it would be given, which are the amount in hundredths and the receipt. Its error callback, which can reply twice, is left out. So are the currency, which comes from the environment, and the gateway's order id. `orders.fetch` is replaced by the status and receipt it reports.
- Mongoose models and the database connection are left out:
  - the collections are maps;
  - ids are natural numbers handed out in order;
  - database errors are left out, including cast errors on malformed ids;
  - the unused `findById(userId)` at `server/controllers/userController.js:162` is left out.
- `models/userModel.js` and `models/transactionModel.js` are not part of this model. The default credit balance is a constructor parameter. A new transaction's `payment` flag starts false.
- Handlers.OtpCode: `Math.random()` is a real parameter. Floating-point rounding of `100000 + r * 900000` is not modelled.
- Request fields that are absent and fields that are empty strings are both the empty string. For user ids, absence is `None`. As a result, the model does not capture three things:
  - the different error when `loginUser` gets no password, where bcrypt throws;
  - Mongoose dropping an undefined email filter in `loginUser`;
  - a numeric `otp` in the JSON body, which never equals the stored string.
- Handlers.VerifyRazorpay: the two separate database writes (`server/controllers/userController.js:231-232`) are one step. A failure between them is not modelled.
- Handlers.UserCredits, Handlers.VerifyRazorpay: the message for reading a field of a missing document is the one Node's V8 engine produces. Another engine would word it differently.
- Logging with `console.log` in the catch blocks and in the gateway callback is left out. It is output only.
- Concurrent requests are left out: the model is sequential. This covers the last-writer-wins race on the OTP map and two concurrent confirmations of one order.
- Express wiring (`server/server.js`, `server/routes/userRoutes.js`) and the auth middleware are left out. The routes file does not mount `sendOTP`, `verifyOTP` or `verifyRazorpay`.
- Image generation and its zero-credit check are not modelled: the image controller is not part of this model.
- The React client is left out. Its logic is rendering, notifications and HTTP calls.
