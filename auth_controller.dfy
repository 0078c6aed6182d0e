/**
 * The authentication handlers that write the store, as they run (login only
 * reads it and is modelled by `AuthFlow.Login`).  Register appends the new
 * document; the others fetch a user document, assign its fields one by one
 * and save it back.  Saving document `i` is `users := users[i := doc]`.  Every handler is proved to leave the store and
 * give the response that AuthFlow describes, and to keep emails unique.
 */
module AuthController {
  import opened Wrappers
  import opened Users
  import opened Encoding
  import opened AuthFlow

  class UserStore {
    /** SHA-256 hex digest. */
    const hash: string -> string
    /** The user collection; a document's index is its id. */
    var users: seq<User>

    ghost predicate Valid()
      reads this
    {
      EmailsUnique(users)
    }

    constructor (hash: string -> string)
      ensures this.hash == hash && users == [] && Valid()
    {
      this.hash := hash;
      users := [];
    }

    /** `register`: `created` is whether `User.create` succeeds. */
    method Register(name: string, email: string, phone: string, password: string, created: bool)
      returns (r: Response<nat>)
      requires Valid()
      modifies this
      ensures Valid()
      ensures Step(r, users) == AuthFlow.Register(old(users), name, email, phone, password, created)
    {
      var userExist := FindOne(users, ByEmail(email));
      if userExist.Some? {
        return Err(400, EmailRegistered);
      }
      if !created {
        return Err(500, CreateFailed);
      }
      users := users + [NewUser(name, email, phone, password)];
      r := Ok(|users| - 1);
    }

    /** `profileUpdatePassword` for the signed-in user `id`. */
    method ProfileUpdatePassword(id: nat, oldPassword: string, newPassword: string, confirmPassword: string)
      returns (r: Response<nat>)
      requires Valid() && id < |users|
      modifies this
      ensures Valid()
      ensures Step(r, users) == AuthFlow.UpdatePassword(old(users), id, oldPassword, newPassword, confirmPassword)
    {
      var user := users[id];
      if user.password != oldPassword {
        return Err(400, OldPasswordIncorrect);
      }
      if newPassword != confirmPassword {
        return Err(400, PasswordMismatch);
      }
      user := user.(password := newPassword);
      users := users[id := user];
      r := Ok(id);
    }

    /** `forgotPassword`: `code` is the drawn `Math.floor(100000 + Math.random() * 900000)`. */
    method ForgotPassword(email: Option<string>, code: nat, now: int, mail: Mail) returns (r: Response<string>)
      requires Valid()
      requires 100000 <= code <= 999999
      modifies this
      ensures Valid()
      ensures Step(r, users) == AuthFlow.ForgotPassword(old(users), hash, email, Decimal(code), now, mail)
    {
      if email == None || email.value == "" {
        return Err(400, EnterEmail);
      }
      var found := FindOne(users, ByEmail(email.value));
      if found.None? {
        return Err(404, UserNotFound);
      }
      var i := found.value;
      var user := users[i];
      var otp := Decimal(code);
      var hashedOtp := hash(otp);
      user := user.(resetPasswordOtp := Some(otp));
      user := user.(resetPasswordToken := Some(hashedOtp));
      user := user.(resetPasswordExpire := Some(now + ResetWindow));
      users := users[i := user];
      match mail {
        case Sent =>
          r := Ok(user.resetPasswordToken.value);
        case MailFailed(reason) =>
          user := user.(resetPasswordToken := None);
          user := user.(resetPasswordExpire := None);
          user := user.(resetPasswordOtp := None);
          users := users[i := user];
          r := Err(500, reason);
      }
    }

    /** `resetPasswordverifyOtp`: `randomBytes` is `crypto.randomBytes(32)`. */
    method ResetPasswordVerifyOtp(email: string, otp: Option<string>, now: int, randomBytes: seq<byte>)
      returns (r: Response<string>)
      requires Valid()
      requires |randomBytes| == 32
      modifies this
      ensures Valid()
      ensures Step(r, users) == AuthFlow.VerifyOtp(old(users), hash, email, otp, now, Hex(randomBytes))
    {
      var found := FindOne(users, ByEmailUnexpired(email, now));
      if found.None? || users[found.value].resetPasswordOtp != otp {
        return Err(400, InvalidOtp);
      }
      var i := found.value;
      var user := users[i];
      var rawResetToken := Hex(randomBytes);
      var hashedToken := hash(rawResetToken);
      user := user.(resetPasswordToken := Some(hashedToken));
      user := user.(resetPasswordExpire := Some(now + ResetWindow));
      user := user.(resetPasswordOtp := None);
      users := users[i := user];
      r := Ok(rawResetToken);
    }

    /** `resetPassword`. */
    method ResetPassword(token: Option<string>, password: string, confirmPassword: string, now: int)
      returns (r: Response<nat>)
      requires Valid()
      modifies this
      ensures Valid()
      ensures Step(r, users) == AuthFlow.ResetPassword(old(users), hash, token, password, confirmPassword, now)
    {
      if token == None || token.value == "" {
        return Err(400, TokenRequired);
      }
      var resetPasswordToken := hash(token.value);
      var found := FindOne(users, ByTokenUnexpired(resetPasswordToken, now));
      if found.None? {
        return Err(400, TokenInvalid);
      }
      if password != confirmPassword {
        return Err(400, PasswordsDiffer);
      }
      var i := found.value;
      var user := users[i];
      user := user.(password := password);
      user := user.(resetPasswordToken := None);
      user := user.(resetPasswordExpire := None);
      users := users[i := user];
      r := Ok(i);
    }
  }
}
