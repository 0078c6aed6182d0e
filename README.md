# Password-reset lifecycle of the authentication controller

This project models the core of the authentication controller of a small
user-account HTTP service: registration's duplicate-email check, login's
choice between email and phone, the signed-in password change, and the
three-step password reset (forgot-password issues an OTP by mail,
OTP verification trades it for a reset token, reset-password spends the
token).

The user collection is a sequence of user documents; a document's index is
its id, and `findOne` returns the first document, in that order, that matches
the query filter (`Users.FindOne`).  Each handler is modelled as what it
means; each handler that writes the store (all but login) is also modelled as
the source is written:

- `AuthFlow` gives each handler's response (HTTP status and message, or the
  value returned to the client) and the store after the request, as a pure
  function of the store before it.  Its contracts state the error cases, what
  a success changes and that nothing else changes.
- `AuthController.UserStore` is the store as a mutable object.  Each handler
  that writes the store (all but login) is also a method of `UserStore`.
  Register appends the new document; the others fetch one, assign its fields
  one by one and save it back, rollback included.  Each method is proved to
  produce exactly the `AuthFlow` step and to keep emails unique.  Login only
  reads the store and is modelled by `AuthFlow.Login` alone.
- `AuthProperties` proves properties across several requests.  These cover
  single use of OTPs and tokens, expiry, and the whole reset flow, plus the
  weaknesses the controller has as written.

The outside world is passed in as values:

- SHA-256 is the store's `hash`, an arbitrary function from strings to strings.
- `Date.now()` is `now`, in milliseconds.
- The OTP draw `Math.floor(100000 + Math.random() * 900000)` is an integer
  `code` between 100000 and 999999.  `Encoding.Decimal` prints it.
- `crypto.randomBytes(32)` is a sequence of 32 bytes.  `Encoding.Hex` encodes it.
- Whether the mail was sent is `Mail`, and whether `User.create` succeeded is
  `created`.
- Comparing a password with the stored one is string equality.

Request-body fields that may be missing are `Option`s, and JavaScript
falsiness of a string (`!email`, `!token`) is `AuthFlow.Blank`: absent or empty.

Behaviour of the source that the model keeps, and proves, rather than fixes:

- Registration checks only the email, so when `User.create` accepts it
  (`created`), a second account may take an existing phone number.  A phone
  login then never reaches the newcomer's account; with the earlier holder's
  password it opens the earlier holder's account
  (`AuthProperties.RegisterAcceptsDuplicatePhone`).
- OTP verification compares the stored and supplied OTPs with `!==`.  An
  absent OTP equals an absent OTP, so after one successful verification,
  omitting the OTP passes again until expiry
  (`AuthProperties.MissingOtpPassesAfterVerify`).
- Forgot-password stores the hash of the plain OTP as the reset token, and
  returns that hash to the client.  The OTP mailed to the user is therefore
  accepted directly by reset-password (`AuthProperties.OtpWorksAsResetToken`).
  The lookup takes the first user holding that hash, so an earlier user who
  still holds the same six-digit code unexpired has their account reset instead.

The model follows the code as written: registration makes one duplicate
check (email only); the reset OTP is stored in plain text alongside its hash;
a successful reset clears token and expiry but leaves the OTP field as it was.

## Model

| member | source | states |
|---|---|---|
| `Users.FindOne` | controllers/authController.js:183-186 | `findOne` yields the first document matching the filter; it yields none exactly when no document matches |
| `AuthFlow.Register` | controllers/authController.js:10-31 | a used email gives 400 and a failed create gives 500, both leaving the store unchanged; success appends exactly the new user and returns its id; unique emails stay unique |
| `AuthFlow.LoginQuery` | controllers/authController.js:38-43 | an identifier containing `@` is looked up as an email, any other as a phone |
| `AuthFlow.Login` | controllers/authController.js:34-55 | every failure is the same 401 "Invalid email/phone or password"; success is the first user with that identifier and has the supplied password; with unique emails, login by email succeeds iff some user has that email and password |
| `AuthFlow.UpdatePassword` | controllers/authController.js:110-124 | wrong old password gives 400 "Old password is incorrect", mismatched confirmation gives 400 "Password does not match", both leaving the store unchanged; success changes only that user's password |
| `AuthFlow.ForgotPassword` | controllers/authController.js:127-177 | blank email gives 400 and unknown email 404, store unchanged; success iff the email is known and the mail is sent, returning `hash(otp)`; the owner then holds OTP `otp`, token `hash(otp)` and expiry `now + 600000`; on mail failure all three fields are absent and the mailer's message comes back with 500; no other user or field changes |
| `AuthFlow.VerifyOtp` | controllers/authController.js:180-206 | every failure is 400 "Invalid or expired OTP" with the store unchanged; with unique emails it succeeds iff the owner's reset is unexpired and its stored OTP equals the supplied one (both absent counts as equal); success returns `raw`, stores `hash(raw)` with expiry `now + 600000`, clears the OTP and changes nothing else |
| `AuthFlow.ResetPassword` | controllers/authController.js:209-254 | blank token gives 400 "Token is required"; no user holding `hash(token)` unexpired gives 400 "Reset Password Token is invalid or has expired"; mismatched confirmation gives 400 "Passwords do not match"; every failure leaves the store unchanged; success goes to the first user holding `hash(token)` unexpired, sets its password and clears its token and expiry, nothing else |
| `AuthController.UserStore.Register` | controllers/authController.js:10-31 | the register handler yields exactly the `AuthFlow.Register` response and store, and keeps emails unique |
| `AuthController.UserStore.ProfileUpdatePassword` | controllers/authController.js:110-124 | the handler yields exactly the `AuthFlow.UpdatePassword` step and keeps emails unique |
| `AuthController.UserStore.ForgotPassword` | controllers/authController.js:127-177 | the handler's two saves (issue, then rollback on mail failure) end in exactly the `AuthFlow.ForgotPassword` step for the OTP printed from the drawn code |
| `AuthController.UserStore.ResetPasswordVerifyOtp` | controllers/authController.js:180-206 | the handler yields exactly the `AuthFlow.VerifyOtp` step with the hex encoding of the random bytes as raw token |
| `AuthController.UserStore.ResetPassword` | controllers/authController.js:209-254 | the handler yields exactly the `AuthFlow.ResetPassword` step and keeps emails unique |
| `Encoding.Decimal` | controllers/authController.js:140 | `toString()` of a natural number is a non-empty string of digits without a leading zero |
| `Encoding.DecimalRoundTrip` | controllers/authController.js:140 | reading the printed OTP back gives the drawn number |
| `Encoding.DecimalLength` | controllers/authController.js:140 | a number with k+1 digits prints as k+1 characters |
| `Encoding.SixDigitCode` | controllers/authController.js:139-140 | every possible draw prints as a six-digit OTP not starting with 0 |
| `Encoding.Hex` | controllers/authController.js:193 | hex encoding gives two lower-case hex digits per byte |
| `Encoding.HexRoundTrip` | controllers/authController.js:193 | the raw token decodes back to the random bytes |
| `Encoding.HexInjective` | controllers/authController.js:193 | distinct random bytes give distinct raw tokens |
| `AuthProperties.VerifiedOtpIsSingleUse` | controllers/authController.js:188-198 | after a successful verification, the same OTP is refused at any later time |
| `AuthProperties.MissingOtpPassesAfterVerify` | controllers/authController.js:188 | after a successful verification, a verification without any OTP succeeds until the new expiry |
| `AuthProperties.OtpExpires` | controllers/authController.js:183-189 | 10 minutes after forgot-password, verification fails whatever OTP is supplied |
| `AuthProperties.OtpWorksAsResetToken` | controllers/authController.js:143-167 | forgot-password returns `hash(otp)`; within 10 minutes reset-password accepts the plain OTP as token; any non-empty token hashing to the returned value resets the owner's account and sets its password, unless an earlier user holds the same hash unexpired |
| `AuthProperties.ResetTokenIsSingleUse` | controllers/authController.js:243-247 | after a successful reset the same token is refused, unless another user holds the same token hash |
| `AuthProperties.ResetFlowChangesPassword` | controllers/authController.js:127-254 | forgot, verify within 10 minutes and reset within 10 more change the owner's password; the new password then logs in and the token is refused |
| `AuthProperties.RegisterAcceptsDuplicatePhone` | controllers/authController.js:12-23 | registration with a fresh email and a used phone succeeds when the create succeeds, and phones are then no longer unique; no phone login, with any password, reaches the newcomer's account; the earlier holder's password opens the earlier holder's account, and any other password gets the 401 |

## Left out

- `logout`, session-token issuance (`sendToken`, the JWT and its cookie): HTTP and cookie plumbing around a library that is not part of this model; successful handlers return the user's id instead.
- `profileDetails` and `profileUpdate`: plain pass-throughs to the document store. `profileUpdate` (line 91) writes the request body unchecked, so it can set `email` to one already in use unless the store's schema refuses it; the unique-email invariant of `UserStore`, the clauses of `AuthFlow.ForgotPassword`, `AuthFlow.VerifyOtp` and `AuthFlow.Login` that depend on it, and the lemmas `VerifiedOtpIsSingleUse`, `MissingOtpPassesAfterVerify`, `OtpExpires`, `OtpWorksAsResetToken` and `ResetFlowChangesPassword` assume it does not.
- `sendEmailVerify`, `emailVerifyOtp`, `getAllUsers` and `deleteUser`: their route is declared but their code is not part of this model.
- E-mail templates and the text of success messages (`OTP sent to …`): string formatting with no behaviour.
- SHA-256, bcrypt comparison and the pre-save password hashing: external; modelled as an arbitrary function and as string equality.
- `Math.random` floating-point arithmetic: the drawn integer is an input.
- Failures of `save()` and schema validation (the `catch` in resetPassword, lines 251-253): the store's validation rules are not part of this model; only `User.create`'s outcome is an input.
- Request fields of the wrong JSON type: the model takes strings. A numeric OTP never equals the stored value, so line 188 refuses it with the usual 400 and the store is unchanged. A numeric token makes `update` throw, giving the 500 at line 252. A missing login identifier makes `email.includes` throw (line 38). A missing email in OTP verification leaves the filter at lines 183-186 to the driver's rules for `undefined`.
- `console.log` of the token: no effect on state.
- Concurrency between requests: the handlers implement none.
- AuthController.UserStore.ResetPasswordVerifyOtp: reads the clock once; the source reads it for the lookup and again for the new expiry.
- AuthController.UserStore.ProfileUpdatePassword: requires the signed-in user to exist, because the source dereferences the found document without a check.
- AuthFlow.ForgotPassword: the new store is described only when emails are unique (the invariant `UserStore` keeps); with duplicate emails only the response is stated.
- AuthFlow.VerifyOtp: when the request succeeds is stated only when emails are unique; with duplicates, only the failure outcome and the returned value are stated in general.
- AuthFlow.Login: completeness ("succeeds iff a user with that email has that password") is stated for email identifiers with unique emails; phone logins are described by the first-match clause only.
