/**
 * Properties of the password-reset lifecycle across several requests, and
 * the consequences of the handlers' checks as written.
 */
module AuthProperties {
  import opened Wrappers
  import opened Users
  import opened AuthFlow

  /** After a successful verification the same OTP is refused, at any time. */
  lemma {:induction false} VerifiedOtpIsSingleUse(users: seq<User>, hash: string -> string, email: string, otp: string,
                                                now: int, raw: string, later: int, raw': string)
    requires EmailsUnique(users)
    requires VerifyOtp(users, hash, email, Some(otp), now, raw).response.Ok?
    ensures VerifyOtp(VerifyOtp(users, hash, email, Some(otp), now, raw).users, hash, email, Some(otp), later, raw').response
            == Err(400, InvalidOtp)
  {
    var s := VerifyOtp(users, hash, email, Some(otp), now, raw);
    var i :| 0 <= i < |users| && Matches(users[i], ByEmailUnexpired(email, now));
    assert s.users[i].resetPasswordOtp == None;
    assert s.users[i].email == email;
  }

  /** Once the OTP has been traded for a token, leaving the OTP out of a
      further verification passes the `!==` check (absent equals absent), so
      anyone knowing the email can mint a new reset token until it expires. */
  lemma {:induction false} MissingOtpPassesAfterVerify(users: seq<User>, hash: string -> string, email: string,
                                                     otp: Option<string>, now: int, raw: string, later: int,
                                                     raw': string)
    requires EmailsUnique(users)
    requires VerifyOtp(users, hash, email, otp, now, raw).response.Ok?
    requires later < now + ResetWindow
    ensures VerifyOtp(VerifyOtp(users, hash, email, otp, now, raw).users, hash, email, None, later, raw').response
            == Ok(raw')
  {
    var s := VerifyOtp(users, hash, email, otp, now, raw);
    var i :| 0 <= i < |users| && Matches(users[i], ByEmailUnexpired(email, now));
    assert s.users[i].email == email;
    assert Unexpired(s.users[i], later);
  }

  /** An OTP is refused once 10 minutes have passed since it was issued,
      whatever OTP is supplied. */
  lemma {:induction false} OtpExpires(users: seq<User>, hash: string -> string, i: nat, otp: string, issued: int,
                                    supplied: Option<string>, later: int, raw: string)
    requires EmailsUnique(users) && i < |users| && users[i].email != ""
    requires ForgotPassword(users, hash, Some(users[i].email), otp, issued, Sent).response.Ok?
    requires later >= issued + ResetWindow
    ensures VerifyOtp(ForgotPassword(users, hash, Some(users[i].email), otp, issued, Sent).users, hash,
                      users[i].email, supplied, later, raw).response == Err(400, InvalidOtp)
  {
    var s := ForgotPassword(users, hash, Some(users[i].email), otp, issued, Sent);
    assert s.users[i].email == users[i].email;
    assert !Unexpired(s.users[i], later);
  }

  /** The stored reset token after forgot-password is the hash of the plain
      OTP, and that hash is also the response.  So the six-digit OTP mailed to
      the user is accepted directly as a reset token, skipping OTP
      verification.  More generally, any non-empty `t` whose hash equals the
      response resets account `i`, unless an earlier user holds the same hash
      unexpired (then that user's account is reset instead). */
  lemma {:induction false} OtpWorksAsResetToken(users: seq<User>, hash: string -> string, i: nat, otp: string,
                                              issued: int, password: string, later: int, t: string)
    requires EmailsUnique(users) && i < |users| && users[i].email != ""
    requires otp != ""
    requires issued <= later < issued + ResetWindow
    ensures var s := ForgotPassword(users, hash, Some(users[i].email), otp, issued, Sent);
            s.response == Ok(hash(otp)) &&
            ResetPassword(s.users, hash, Some(otp), password, password, later).response.Ok? &&
            (t != "" && hash(t) == s.response.value &&
             (forall j :: 0 <= j < i ==> !Matches(users[j], ByTokenUnexpired(hash(otp), later))) ==>
               ResetPassword(s.users, hash, Some(t), password, password, later).response == Ok(i) &&
               ResetPassword(s.users, hash, Some(t), password, password, later).users[i].password == password)
  {
    var s := ForgotPassword(users, hash, Some(users[i].email), otp, issued, Sent);
    assert Matches(s.users[i], ByTokenUnexpired(hash(otp), later));
    if t != "" && hash(t) == hash(otp) && (forall j :: 0 <= j < i ==> !Matches(users[j], ByTokenUnexpired(hash(otp), later))) {
      assert forall j :: 0 <= j < i ==> s.users[j] == users[j];
      assert FindOne(s.users, ByTokenUnexpired(hash(t), later)) == Some(i);
    }
  }

  /** A successful reset clears the token, so presenting it again fails,
      unless some other user happens to hold the same token hash. */
  lemma {:induction false} ResetTokenIsSingleUse(users: seq<User>, hash: string -> string, token: string,
                                               password: string, confirmPassword: string, now: int,
                                               password': string, confirmPassword': string, later: int)
    requires ResetPassword(users, hash, Some(token), password, confirmPassword, now).response.Ok?
    requires forall j :: 0 <= j < |users| && j != ResetPassword(users, hash, Some(token), password, confirmPassword, now).response.value
               ==> !Matches(users[j], ByTokenUnexpired(hash(token), later))
    ensures ResetPassword(ResetPassword(users, hash, Some(token), password, confirmPassword, now).users, hash,
                          Some(token), password', confirmPassword', later).response == Err(400, TokenInvalid)
  {
    var s := ResetPassword(users, hash, Some(token), password, confirmPassword, now);
    var i := s.response.value;
    forall j | 0 <= j < |s.users|
      ensures !Matches(s.users[j], ByTokenUnexpired(hash(token), later))
    {
      if j != i {
        assert s.users[j] == users[j];
      }
    }
  }

  /** The whole reset flow for the owner `i` of an email: forgot-password,
      verification of the mailed OTP within 10 minutes, and a reset with the
      returned token within 10 more minutes change `i`'s password, after which
      the new password logs in and the token is refused.  `raw` must be fresh:
      no user holds its hash beforehand. */
  lemma {:induction false} ResetFlowChangesPassword(users: seq<User>, hash: string -> string, i: nat, code: string,
                                                  t0: int, t1: int, raw: string, t2: int, password: string, t3: int)
    requires EmailsUnique(users) && i < |users| && '@' in users[i].email
    requires raw != ""
    requires forall j :: 0 <= j < |users| ==> users[j].resetPasswordToken != Some(hash(raw))
    requires t0 <= t1 < t0 + ResetWindow && t1 <= t2 < t1 + ResetWindow
    ensures var e := users[i].email;
            var s0 := ForgotPassword(users, hash, Some(e), code, t0, Sent);
            var s1 := VerifyOtp(s0.users, hash, e, Some(code), t1, raw);
            var s2 := ResetPassword(s1.users, hash, Some(raw), password, password, t2);
            s0.response == Ok(hash(code)) && s1.response == Ok(raw) && s2.response == Ok(i) &&
            s2.users[i].password == password &&
            Login(s2.users, e, password) == Ok(i) &&
            ResetPassword(s2.users, hash, Some(raw), password, password, t3).response == Err(400, TokenInvalid)
  {
    var e := users[i].email;
    var s0 := ForgotPassword(users, hash, Some(e), code, t0, Sent);
    assert s0.users[i].email == e && Unexpired(s0.users[i], t1);
    var s1 := VerifyOtp(s0.users, hash, e, Some(code), t1, raw);
    assert s1.users[i].email == e;
    assert Matches(s1.users[i], ByTokenUnexpired(hash(raw), t2));
    assert forall j :: 0 <= j < |s1.users| && j != i ==> s1.users[j] == users[j];
    var s2 := ResetPassword(s1.users, hash, Some(raw), password, password, t2);
    assert s2.response.value == i;
    assert s2.users[i].email == e;
    assert forall j :: 0 <= j < |s2.users| && j != i ==> s2.users[j] == users[j];
    assert !Matches(s2.users[i], ByTokenUnexpired(hash(raw), t3));
    var s3 := ResetPassword(s2.users, hash, Some(raw), password, password, t3);
    assert s3.response.Err?;
  }

  /** Registration checks only the email: when `User.create` accepts it, a new
      account may reuse an existing phone number.  A phone login then never
      reaches the newcomer's account: the lookup stops at the earlier holder,
      whose password opens the earlier holder's account and any other fails. */
  lemma {:induction false} RegisterAcceptsDuplicatePhone(users: seq<User>, name: string, email: string,
                                                       password: string, k: nat)
    requires k < |users| && users[k].phone != "" && '@' !in users[k].phone
    requires forall j :: 0 <= j < k ==> users[j].phone != users[k].phone
    requires !EmailTaken(users, email)
    ensures var s := Register(users, name, email, users[k].phone, password, true);
            s.response == Ok(|users|) && !PhonesUnique(s.users) &&
            s.users[|users|].password == password &&
            (forall p :: Login(s.users, users[k].phone, p) != Ok(|users|)) &&
            Login(s.users, users[k].phone, users[k].password) == Ok(k) &&
            (password != users[k].password ==> Login(s.users, users[k].phone, password) == Err(401, BadCredentials))
  {
    var s := Register(users, name, email, users[k].phone, password, true);
    assert s.users[k] == users[k] && s.users[|users|].phone == users[k].phone;
    assert forall j :: 0 <= j < k ==> s.users[j] == users[j];
    assert FindOne(s.users, LoginQuery(users[k].phone)) == Some(k);
  }
}
