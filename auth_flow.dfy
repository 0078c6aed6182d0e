/**
 * What each authentication handler does to the user store, as a function of
 * the store before the request and the request's inputs.
 *
 * The world outside the handler is passed in: `hash` is the SHA-256 hex
 * digest, `now` is `Date.now()` in milliseconds, `otp` and `raw` are the
 * random secrets, `mail` is the outcome of sending the e-mail and `created`
 * the outcome of `User.create`.  Errors carry the HTTP status and message the
 * handler passes to `next`.
 */
module AuthFlow {
  import opened Wrappers
  import opened Users

  /** Reset OTPs and reset tokens stay valid for 10 minutes. */
  const ResetWindow: int := 10 * 60 * 1000

  const EmailRegistered := "Email already registered"
  const CreateFailed := "Failed to create vendor account. Please try again."
  const BadCredentials := "Invalid email/phone or password"
  const OldPasswordIncorrect := "Old password is incorrect"
  const PasswordMismatch := "Password does not match"
  const EnterEmail := "Please Enter Your Email"
  const UserNotFound := "User not found"
  const InvalidOtp := "Invalid or expired OTP"
  const TokenRequired := "Token is required"
  const TokenInvalid := "Reset Password Token is invalid or has expired"
  const PasswordsDiffer := "Passwords do not match"

  datatype Response<+T> = Ok(value: T) | Err(status: int, message: string)

  /** The handler's response and the store after the request. */
  datatype Step<+T> = Step(response: Response<T>, users: seq<User>)

  datatype Mail = Sent | MailFailed(reason: string)

  /** JavaScript falsiness of an optional string field: absent or empty. */
  predicate Blank(s: Option<string>)
  {
    s == None || s == Some("")
  }

  // ---------------------------------------------------------------- register

  /** Registration refuses a used email; it does not look at the phone. */
  function Register(users: seq<User>, name: string, email: string, phone: string, password: string,
                    created: bool): (s: Step<nat>)
    ensures EmailTaken(users, email) ==> s == Step(Err(400, EmailRegistered), users)
    ensures !EmailTaken(users, email) && !created ==> s == Step(Err(500, CreateFailed), users)
    ensures s.response.Ok? <==> !EmailTaken(users, email) && created
    ensures s.response.Ok? ==>
              s.response.value == |users| && |s.users| == |users| + 1 && s.users[..|users|] == users &&
              s.users[|users|] == NewUser(name, email, phone, password)
    ensures EmailsUnique(users) ==> EmailsUnique(s.users)
  {
    if FindOne(users, ByEmail(email)).Some? then Step(Err(400, EmailRegistered), users)
    else if !created then Step(Err(500, CreateFailed), users)
    else Step(Ok(|users|), users + [NewUser(name, email, phone, password)])
  }

  // ------------------------------------------------------------------- login

  /** `email.includes("@")` decides whether the identifier is an email or a phone. */
  predicate IdentifiedBy(u: User, identifier: string)
  {
    if '@' in identifier then u.email == identifier else u.phone == identifier
  }

  function LoginQuery(identifier: string): (q: Query)
    ensures forall u: User :: Matches(u, q) <==> IdentifiedBy(u, identifier)
  {
    if '@' in identifier then ByEmail(identifier) else ByPhone(identifier)
  }

  /** Login yields the authenticated user's id.  Every failure is the same
      401 response, whether no user matched or the password was wrong. */
  function Login(users: seq<User>, identifier: string, password: string): (r: Response<nat>)
    ensures r.Err? ==> r == Err(401, BadCredentials)
    ensures r.Ok? ==>
              r.value < |users| && IdentifiedBy(users[r.value], identifier) &&
              users[r.value].password == password &&
              forall j :: 0 <= j < r.value ==> !IdentifiedBy(users[j], identifier)
    ensures (forall j :: 0 <= j < |users| ==> !IdentifiedBy(users[j], identifier)) ==> r.Err?
    ensures EmailsUnique(users) && '@' in identifier ==>
              (r.Ok? <==> exists j :: 0 <= j < |users| && users[j].email == identifier && users[j].password == password)
  {
    match FindOne(users, LoginQuery(identifier))
    case None => Err(401, BadCredentials)
    case Some(i) => if users[i].password == password then Ok(i) else Err(401, BadCredentials)
  }

  // ------------------------------------------------- profile password change

  /** Changing the signed-in user's password needs the old password and a
      matching confirmation; nothing but the password changes. */
  function UpdatePassword(users: seq<User>, id: nat, oldPassword: string, newPassword: string,
                          confirmPassword: string): (s: Step<nat>)
    requires id < |users|
    ensures users[id].password != oldPassword ==> s == Step(Err(400, OldPasswordIncorrect), users)
    ensures users[id].password == oldPassword && newPassword != confirmPassword ==>
              s == Step(Err(400, PasswordMismatch), users)
    ensures s.response.Ok? <==> users[id].password == oldPassword && newPassword == confirmPassword
    ensures s.response.Ok? ==>
              s.response.value == id && OnlyAt(users, s.users, id) && s.users[id].password == newPassword &&
              s.users[id] == users[id].(password := newPassword)
    ensures EmailsUnique(users) ==> EmailsUnique(s.users)
  {
    if users[id].password != oldPassword then Step(Err(400, OldPasswordIncorrect), users)
    else if newPassword != confirmPassword then Step(Err(400, PasswordMismatch), users)
    else
      var after := users[id := users[id].(password := newPassword)];
      SameEmailKeepsUnique(users, after, id);
      Step(Ok(id), after)
  }

  // --------------------------------------------------------- forgot password

  /** Forgot-password stores the OTP, its hash as reset token, and an expiry
      10 minutes out; on success the hash is returned to the caller.  If the
      mail cannot be sent, all three fields are cleared and the mailer's error
      is returned with status 500. */
  function ForgotPassword(users: seq<User>, hash: string -> string, email: Option<string>, otp: string,
                          now: int, mail: Mail): (s: Step<string>)
    ensures Blank(email) ==> s == Step(Err(400, EnterEmail), users)
    ensures !Blank(email) && !EmailTaken(users, email.value) ==> s == Step(Err(404, UserNotFound), users)
    ensures s.response.Ok? <==> !Blank(email) && EmailTaken(users, email.value) && mail == Sent
    ensures s.response.Ok? ==> s.response.value == hash(otp)
    ensures !Blank(email) && EmailTaken(users, email.value) && mail.MailFailed? ==>
              s.response == Err(500, mail.reason)
    ensures forall i :: 0 <= i < |users| && EmailsUnique(users) && email == Some(users[i].email) && !Blank(email) ==>
              OnlyAt(users, s.users, i) && SameAccount(s.users[i], users[i]) &&
              s.users[i].password == users[i].password &&
              (mail == Sent ==>
                 s.users[i].resetPasswordOtp == Some(otp) &&
                 s.users[i].resetPasswordToken == Some(hash(otp)) &&
                 s.users[i].resetPasswordExpire == Some(now + ResetWindow)) &&
              (mail.MailFailed? ==>
                 s.users[i].resetPasswordOtp == None &&
                 s.users[i].resetPasswordToken == None &&
                 s.users[i].resetPasswordExpire == None)
    ensures EmailsUnique(users) ==> EmailsUnique(s.users)
  {
    if Blank(email) then Step(Err(400, EnterEmail), users)
    else match FindOne(users, ByEmail(email.value))
      case None => Step(Err(404, UserNotFound), users)
      case Some(i) =>
        var u := users[i];
        match mail
        case Sent =>
          var after := users[i := u.(resetPasswordOtp := Some(otp), resetPasswordToken := Some(hash(otp)),
                                     resetPasswordExpire := Some(now + ResetWindow))];
          SameEmailKeepsUnique(users, after, i);
          FindUniqueEmail(users, email.value);
          Step(Ok(hash(otp)), after)
        case MailFailed(reason) =>
          var after := users[i := u.(resetPasswordOtp := None, resetPasswordToken := None,
                                     resetPasswordExpire := None)];
          SameEmailKeepsUnique(users, after, i);
          FindUniqueEmail(users, email.value);
          Step(Err(500, reason), after)
  }

  /** With unique emails, `findOne({ email })` finds the one owner. */
  lemma FindUniqueEmail(users: seq<User>, email: string)
    ensures forall i :: 0 <= i < |users| && EmailsUnique(users) && users[i].email == email ==>
              FindOne(users, ByEmail(email)) == Some(i)
  {
    forall i | 0 <= i < |users| && EmailsUnique(users) && users[i].email == email
      ensures FindOne(users, ByEmail(email)) == Some(i)
    {
      FindByEmailIsOwner(users, i, ByEmail(email));
    }
  }

  // -------------------------------------------------------- verify reset OTP

  /** OTP verification needs an unexpired reset whose stored OTP equals the
      supplied one (an absent OTP equals an absent OTP).  It then replaces the
      OTP flow by a token flow: the hash of `raw` is stored with a fresh expiry,
      the OTP is cleared, and `raw` itself is returned. */
  function VerifyOtp(users: seq<User>, hash: string -> string, email: string, otp: Option<string>,
                     now: int, raw: string): (s: Step<string>)
    ensures s.response.Err? ==> s == Step(Err(400, InvalidOtp), users)
    ensures s.response.Ok? ==> s.response.value == raw
    ensures (forall j :: 0 <= j < |users| ==> !Matches(users[j], ByEmailUnexpired(email, now))) ==> s.response.Err?
    ensures forall i :: 0 <= i < |users| && EmailsUnique(users) && users[i].email == email ==>
              (s.response.Ok? <==> Unexpired(users[i], now) && users[i].resetPasswordOtp == otp)
    ensures forall i :: 0 <= i < |users| && EmailsUnique(users) && users[i].email == email && s.response.Ok? ==>
              OnlyAt(users, s.users, i) && SameAccount(s.users[i], users[i]) &&
              s.users[i].password == users[i].password &&
              s.users[i].resetPasswordOtp == None &&
              s.users[i].resetPasswordToken == Some(hash(raw)) &&
              s.users[i].resetPasswordExpire == Some(now + ResetWindow)
    ensures EmailsUnique(users) ==> EmailsUnique(s.users)
  {
    match FindOne(users, ByEmailUnexpired(email, now))
    case None =>
      FindUniqueUnexpired(users, email, now);
      Step(Err(400, InvalidOtp), users)
    case Some(i) =>
      FindUniqueUnexpired(users, email, now);
      if users[i].resetPasswordOtp != otp then Step(Err(400, InvalidOtp), users)
      else
        var after := users[i := users[i].(resetPasswordToken := Some(hash(raw)),
                                          resetPasswordExpire := Some(now + ResetWindow),
                                          resetPasswordOtp := None)];
        SameEmailKeepsUnique(users, after, i);
        Step(Ok(raw), after)
  }

  /** With unique emails, the unexpired-reset query finds the owner exactly
      when the owner's reset is unexpired. */
  lemma FindUniqueUnexpired(users: seq<User>, email: string, now: int)
    ensures forall i :: 0 <= i < |users| && EmailsUnique(users) && users[i].email == email ==>
              FindOne(users, ByEmailUnexpired(email, now)) == (if Unexpired(users[i], now) then Some(i) else None)
  {
    forall i | 0 <= i < |users| && EmailsUnique(users) && users[i].email == email
      ensures FindOne(users, ByEmailUnexpired(email, now)) == (if Unexpired(users[i], now) then Some(i) else None)
    {
      FindByEmailIsOwner(users, i, ByEmailUnexpired(email, now));
    }
  }

  // ---------------------------------------------------------- reset password

  /** Resetting needs a non-empty token whose hash is stored on some user with
      an unexpired reset, and a matching confirmation.  The first such user
      gets the new password and loses token and expiry; the OTP field is left
      as it was. */
  function ResetPassword(users: seq<User>, hash: string -> string, token: Option<string>, password: string,
                         confirmPassword: string, now: int): (s: Step<nat>)
    ensures Blank(token) ==> s == Step(Err(400, TokenRequired), users)
    ensures !Blank(token) && (forall j :: 0 <= j < |users| ==> !Matches(users[j], ByTokenUnexpired(hash(token.value), now))) ==>
              s == Step(Err(400, TokenInvalid), users)
    ensures !Blank(token) && password != confirmPassword &&
            (exists j :: 0 <= j < |users| && Matches(users[j], ByTokenUnexpired(hash(token.value), now))) ==>
              s == Step(Err(400, PasswordsDiffer), users)
    ensures s.response.Err? ==> s.users == users
    ensures s.response.Ok? <==>
              !Blank(token) && password == confirmPassword &&
              exists j :: 0 <= j < |users| && Matches(users[j], ByTokenUnexpired(hash(token.value), now))
    ensures s.response.Ok? ==>
              var i := s.response.value;
              i < |users| && users[i].resetPasswordToken == Some(hash(token.value)) && Unexpired(users[i], now) &&
              (forall j :: 0 <= j < i ==> !Matches(users[j], ByTokenUnexpired(hash(token.value), now))) &&
              OnlyAt(users, s.users, i) && SameAccount(s.users[i], users[i]) &&
              s.users[i].password == password &&
              s.users[i].resetPasswordOtp == users[i].resetPasswordOtp &&
              s.users[i].resetPasswordToken == None &&
              s.users[i].resetPasswordExpire == None
    ensures EmailsUnique(users) ==> EmailsUnique(s.users)
  {
    if Blank(token) then Step(Err(400, TokenRequired), users)
    else match FindOne(users, ByTokenUnexpired(hash(token.value), now))
      case None => Step(Err(400, TokenInvalid), users)
      case Some(i) =>
        if password != confirmPassword then Step(Err(400, PasswordsDiffer), users)
        else
          var after := users[i := users[i].(password := password, resetPasswordToken := None,
                                            resetPasswordExpire := None)];
          SameEmailKeepsUnique(users, after, i);
          Step(Ok(i), after)
  }
}
