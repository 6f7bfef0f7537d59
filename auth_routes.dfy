/**
 * The account routes of the auth service (server/auth_service/src/routes.py):
 * register with an emailed one-time code, verify the code, log in.
 *
 * Users are kept by email, which the table holds unique.  Time is an integer count of
 * microseconds (the resolution of `datetime.utcnow()`); the clock reading, the code
 * `generate_otp` drew, the password salt, whether the mail went out and the tokens
 * issued are parameters.
 */
module AuthRoutes {
  import opened Wrappers
  import opened Http
  import Passwords

  /** `timedelta(minutes=10)` in microseconds. */
  const OtpLifetime: int := 600 * 1000000

  const CredentialsRequiredMsg: string := "Email and password are required"
  const EmailTakenMsg: string := "User with this email already exists"
  const SendFailedMsg: string := "Failed to send OTP email"
  const RegisteredMsg: string := "User registered. Check email for OTP."
  const OtpRequiredMsg: string := "Email and OTP are required"
  const UserNotFoundMsg: string := "User not found"
  const AlreadyVerifiedMsg: string := "Account already verified"
  const OtpExpiredMsg: string := "OTP has expired"
  const InvalidOtpMsg: string := "Invalid OTP"
  const VerifiedMsg: string := "Account verified successfully."
  const BadCredentialsMsg: string := "Bad email or password"
  const NotVerifiedMsg: string := "Account not verified"

  datatype User = User(
    id: nat,
    email: string,
    passwordHash: string,
    isVerified: bool,
    otp: Option<string>,
    otpExpiration: Option<int>)

  /** `send_otp_email(user_email, otp, otp_expiration_minutes)` called with `argCount`
      positional arguments: `None` is the `TypeError` Python raises when the count is not
      three; otherwise whether the mail went out. */
  function SendOtpEmail(argCount: nat, delivered: bool): (r: Option<bool>)
    ensures r.Some? <==> argCount == 3
    ensures argCount == 3 ==> r == Some(delivered)
  {
    if argCount == 3 then Some(delivered) else None
  }

  function Tokens(accessToken: string, refreshToken: string): Json {
    JObject(map["access_token" := JStr(accessToken), "refresh_token" := JStr(refreshToken)])
  }

  class UserTable {
    var users: map<string, User>
    /** The id the next inserted row receives. */
    var nextId: nat

    ghost predicate Valid()
      reads this
    {
      && (forall e :: e in users ==> users[e].email == e && users[e].id < nextId)
      && (forall e1, e2 :: e1 in users && e2 in users && e1 != e2 ==> users[e1].id != users[e2].id)
    }

    constructor (users: map<string, User>, nextId: nat)
      ensures this.users == users && this.nextId == nextId
    {
      this.users := users;
      this.nextId := nextId;
    }

    /** The account `register` builds: unverified, with the code and an expiry ten
        minutes on. */
    function PendingUser(email: string, passwordHash: string, otp: string, now: int): (u: User)
      reads this
      ensures !u.isVerified && u.otp == Some(otp) && u.otpExpiration == Some(now + OtpLifetime)
      ensures u.email == email && u.id == nextId && u.passwordHash == passwordHash
    {
      User(nextId, email, passwordHash, false, Some(otp), Some(now + OtpLifetime))
    }

    /** `register` with the mail helper called with all three of its arguments: both
        fields are required (400), the email must be new (409), and the account is
        stored only once the mail has gone out (otherwise 500 and nothing stored). */
    method Register(email: Option<string>, password: Option<string>, hasher: Passwords.Hasher,
                    salt: nat, otp: string, now: int, delivered: bool)
      returns (resp: Response)
      requires Valid()
      modifies this
      ensures Valid()
      ensures !(Present(email) && Present(password)) ==>
                resp == Response(400, Msg(CredentialsRequiredMsg)) && users == old(users)
      ensures Present(email) && Present(password) && email.value in old(users) ==>
                resp == Response(409, Msg(EmailTakenMsg)) && users == old(users)
      ensures Present(email) && Present(password) && email.value !in old(users) && !delivered ==>
                resp == Response(500, Msg(SendFailedMsg)) && users == old(users)
      ensures Present(email) && Present(password) && email.value !in old(users) && delivered ==>
                && resp == Response(201, Msg(RegisteredMsg))
                && users == old(users)[email.value := User(old(nextId), email.value,
                                                           hasher.hash(password.value, salt), false,
                                                           Some(otp), Some(now + OtpLifetime))]
                && nextId == old(nextId) + 1
      ensures resp.code != 201 ==> nextId == old(nextId)
    {
      if !(Present(email) && Present(password)) {
        return Response(400, Msg(CredentialsRequiredMsg));
      }
      if email.value in users {
        return Response(409, Msg(EmailTakenMsg));
      }
      var newUser := PendingUser(email.value, hasher.hash(password.value, salt), otp, now);
      var sent := SendOtpEmail(3, delivered);
      if !sent.value {
        return Response(500, Msg(SendFailedMsg));
      }
      users := users[email.value := newUser];
      nextId := nextId + 1;
      resp := Response(201, Msg(RegisteredMsg));
    }

    /** `register` as written: the mail helper is called with two arguments, so once the
        checks pass the call raises and no account is ever stored. */
    method RegisterAsWritten(email: Option<string>, password: Option<string>, hasher: Passwords.Hasher,
                             salt: nat, otp: string, now: int, delivered: bool)
      returns (resp: Response)
      requires Valid()
      modifies this
      ensures Valid()
      ensures users == old(users) && nextId == old(nextId)
      ensures !(Present(email) && Present(password)) ==> resp == Response(400, Msg(CredentialsRequiredMsg))
      ensures Present(email) && Present(password) && email.value in old(users) ==>
                resp == Response(409, Msg(EmailTakenMsg))
      ensures Present(email) && Present(password) && email.value !in old(users) ==> resp == ServerError
    {
      if !(Present(email) && Present(password)) {
        return Response(400, Msg(CredentialsRequiredMsg));
      }
      if email.value in users {
        return Response(409, Msg(EmailTakenMsg));
      }
      var newUser := PendingUser(email.value, hasher.hash(password.value, salt), otp, now);
      // `send_otp_email(email, otp)`: the call itself raises, before anything is sent or stored
      var sent := SendOtpEmail(2, delivered);
      assert sent == None;
      resp := ServerError;
    }

    /** `verify_otp`: the checks run in the order missing fields, unknown user, already
        verified, expired (strictly after the expiry), wrong code; success marks the
        account verified and clears the code and its expiry. */
    method VerifyOtp(email: Option<string>, otpProvided: Option<string>, now: int) returns (resp: Response)
      requires Valid()
      modifies this
      ensures Valid()
      ensures nextId == old(nextId)
      ensures !(Present(email) && Present(otpProvided)) ==>
                resp == Response(400, Msg(OtpRequiredMsg)) && users == old(users)
      ensures Present(email) && Present(otpProvided) && email.value !in old(users) ==>
                resp == Response(404, Msg(UserNotFoundMsg)) && users == old(users)
      ensures Present(email) && Present(otpProvided) && email.value in old(users) ==>
                var u := old(users)[email.value];
                && (u.isVerified ==> resp == Response(400, Msg(AlreadyVerifiedMsg)))
                && (!u.isVerified && u.otpExpiration == None ==> resp == ServerError)
                && (!u.isVerified && u.otpExpiration.Some? && now > u.otpExpiration.value ==>
                      resp == Response(400, Msg(OtpExpiredMsg)))
                && (!u.isVerified && u.otpExpiration.Some? && now <= u.otpExpiration.value
                    && u.otp != Some(otpProvided.value) ==>
                      resp == Response(400, Msg(InvalidOtpMsg)))
                && (resp.code == 200 <==>
                      !u.isVerified && u.otpExpiration.Some? && now <= u.otpExpiration.value
                      && u.otp == Some(otpProvided.value))
                && (resp.code == 200 ==>
                      && resp == Response(200, Msg(VerifiedMsg))
                      && users == old(users)[email.value := u.(isVerified := true, otp := None, otpExpiration := None)])
                && (resp.code != 200 ==> users == old(users))
    {
      if !(Present(email) && Present(otpProvided)) {
        return Response(400, Msg(OtpRequiredMsg));
      }
      if email.value !in users {
        return Response(404, Msg(UserNotFoundMsg));
      }
      var user := users[email.value];
      if user.isVerified {
        return Response(400, Msg(AlreadyVerifiedMsg));
      }
      if user.otpExpiration == None {
        // comparing a datetime with None raises
        return ServerError;
      }
      if now > user.otpExpiration.value {
        return Response(400, Msg(OtpExpiredMsg));
      }
      if user.otp != Some(otpProvided.value) {
        return Response(400, Msg(InvalidOtpMsg));
      }
      users := users[email.value := user.(isVerified := true, otp := None, otpExpiration := None)];
      resp := Response(200, Msg(VerifiedMsg));
    }

    /** `login`: an unknown email or a wrong password is 401, whatever the account's
        state; a right password on an unverified account is 403; otherwise the tokens. */
    method Login(email: Option<string>, password: Option<string>, hasher: Passwords.Hasher,
                 accessToken: string, refreshToken: string)
      returns (resp: Response)
      ensures !(Present(email) && Present(password)) ==> resp == Response(400, Msg(CredentialsRequiredMsg))
      ensures Present(email) && Present(password) ==>
                && (email.value !in users || !hasher.check(users[email.value].passwordHash, password.value) ==>
                      resp == Response(401, Msg(BadCredentialsMsg)))
                && (email.value in users && hasher.check(users[email.value].passwordHash, password.value) ==>
                      resp == if users[email.value].isVerified then Response(200, Tokens(accessToken, refreshToken))
                              else Response(403, Msg(NotVerifiedMsg)))
    {
      if !(Present(email) && Present(password)) {
        return Response(400, Msg(CredentialsRequiredMsg));
      }
      if email.value !in users || !hasher.check(users[email.value].passwordHash, password.value) {
        return Response(401, Msg(BadCredentialsMsg));
      }
      if !users[email.value].isVerified {
        return Response(403, Msg(NotVerifiedMsg));
      }
      resp := Response(200, Tokens(accessToken, refreshToken));
    }
  }

  /** The whole journey with the corrected call: a new address registers, verifies with
      the mailed code before it lapses (the expiry instant itself included), and then
      logs in; verifying again is refused. */
  method RegisterVerifyLogin(users: map<string, User>, nextId: nat, hasher: Passwords.Hasher,
                             email: string, password: string, salt: nat, otp: string,
                             registeredAt: int, verifiedAt: int, accessToken: string, refreshToken: string)
    returns (registered: Response, verified: Response, again: Response, loggedIn: Response)
    requires forall e :: e in users ==> users[e].email == e && users[e].id < nextId
    requires forall e1, e2 :: e1 in users && e2 in users && e1 != e2 ==> users[e1].id != users[e2].id
    requires hasher.Sound()
    requires email != "" && password != "" && otp != "" && email !in users
    requires verifiedAt <= registeredAt + OtpLifetime
    ensures registered == Response(201, Msg(RegisteredMsg))
    ensures verified == Response(200, Msg(VerifiedMsg))
    ensures again == Response(400, Msg(AlreadyVerifiedMsg))
    ensures loggedIn == Response(200, Tokens(accessToken, refreshToken))
  {
    var table := new UserTable(users, nextId);
    registered := table.Register(Some(email), Some(password), hasher, salt, otp, registeredAt, true);
    verified := table.VerifyOtp(Some(email), Some(otp), verifiedAt);
    again := table.VerifyOtp(Some(email), Some(otp), verifiedAt);
    loggedIn := table.Login(Some(email), Some(password), hasher, accessToken, refreshToken);
  }

  /** As written, registration never completes: a new address with both fields given
      always gets the 500 page, and the table is left without the account, so no code
      can ever be verified for it. */
  method RegistrationNeverCompletes(users: map<string, User>, nextId: nat, hasher: Passwords.Hasher,
                                    email: string, password: string, salt: nat, otp: string,
                                    now: int, delivered: bool, later: int)
    returns (registered: Response, verified: Response)
    requires forall e :: e in users ==> users[e].email == e && users[e].id < nextId
    requires forall e1, e2 :: e1 in users && e2 in users && e1 != e2 ==> users[e1].id != users[e2].id
    requires email != "" && password != "" && otp != "" && email !in users
    ensures registered == ServerError
    ensures verified == Response(404, Msg(UserNotFoundMsg))
  {
    var table := new UserTable(users, nextId);
    registered := table.RegisterAsWritten(Some(email), Some(password), hasher, salt, otp, now, delivered);
    verified := table.VerifyOtp(Some(email), Some(otp), later);
  }

  /** A mail that fails to go out leaves no account behind. */
  method FailedMailStoresNothing(users: map<string, User>, nextId: nat, hasher: Passwords.Hasher,
                                 email: string, password: string, salt: nat, otp: string, now: int)
    returns (registered: Response, after: map<string, User>)
    requires forall e :: e in users ==> users[e].email == e && users[e].id < nextId
    requires forall e1, e2 :: e1 in users && e2 in users && e1 != e2 ==> users[e1].id != users[e2].id
    requires email != "" && password != "" && email !in users
    ensures registered == Response(500, Msg(SendFailedMsg))
    ensures after == users && email !in after
  {
    var table := new UserTable(users, nextId);
    registered := table.Register(Some(email), Some(password), hasher, salt, otp, now, false);
    after := table.users;
  }

  /** The expiry check is strict: a code presented at the expiry instant is accepted,
      one microsecond later it is refused. */
  method ExpiryBoundary(users: map<string, User>, nextId: nat, email: string, otp: string)
    returns (atDeadline: Response, afterDeadline: Response)
    requires forall e :: e in users ==> users[e].email == e && users[e].id < nextId
    requires forall e1, e2 :: e1 in users && e2 in users && e1 != e2 ==> users[e1].id != users[e2].id
    requires email != "" && email in users && otp != ""
    requires !users[email].isVerified && users[email].otp == Some(otp) && users[email].otpExpiration.Some?
    ensures atDeadline == Response(200, Msg(VerifiedMsg))
    ensures afterDeadline == Response(400, Msg(OtpExpiredMsg))
  {
    var deadline := users[email].otpExpiration.value;
    var late := new UserTable(users, nextId);
    afterDeadline := late.VerifyOtp(Some(email), Some(otp), deadline + 1);
    var onTime := new UserTable(users, nextId);
    atDeadline := onTime.VerifyOtp(Some(email), Some(otp), deadline);
  }

  /** Logging in with a wrong password says 401 even for an unverified account, so the
      response does not reveal whether the account is verified. */
  method WrongPasswordIsUnauthorized(users: map<string, User>, nextId: nat, hasher: Passwords.Hasher,
                                     email: string, password: string, accessToken: string, refreshToken: string)
    returns (resp: Response)
    requires email != "" && password != ""
    requires email in users ==> !hasher.check(users[email].passwordHash, password)
    ensures resp == Response(401, Msg(BadCredentialsMsg))
  {
    var table := new UserTable(users, nextId);
    resp := table.Login(Some(email), Some(password), hasher, accessToken, refreshToken);
  }
}
