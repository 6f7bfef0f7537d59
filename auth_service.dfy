/**
 * Registration and login of the `auth` package (auth/services/auth_service.py).
 *
 * The route in front of these services answers 400 unless both email and password are
 * given and non-empty, so both arrive here as non-empty text.  The password salt, the
 * clock reading and the token issued are parameters.
 */
module AuthService {
  import opened Wrappers
  import opened Http
  import Passwords
  import opened AuthModels

  const UserExistsMsg: string := "User already exists"
  const UserRegisteredMsg: string := "User registered successfully"
  const InvalidCredentialsMsg: string := "Invalid credentials"

  /** `register_user`: a taken email or username is 409 and adds nothing; a missing
      username fails the `NOT NULL` constraint on commit (500, nothing added); otherwise
      exactly one unverified user is appended. */
  method RegisterUser(db: AuthDb, username: Option<string>, email: string, password: string,
                      hasher: Passwords.Hasher, salt: nat, now: int)
    returns (resp: Response)
    requires db.Valid()
    requires email != "" && password != ""
    modifies db
    ensures db.Valid()
    ensures db.verifications == old(db.verifications)
    ensures db.nextUserId == old(db.nextUserId) + (if resp.code == 201 then 1 else 0)
    ensures EmailTaken(old(db.users), email) || UsernameTaken(old(db.users), username) ==>
              resp == Response(409, Message(UserExistsMsg)) && db.users == old(db.users)
    ensures !EmailTaken(old(db.users), email) && !UsernameTaken(old(db.users), username) && username == None ==>
              resp == ServerError && db.users == old(db.users)
    ensures !EmailTaken(old(db.users), email) && !UsernameTaken(old(db.users), username) && username.Some? ==>
              && resp == Response(201, Message(UserRegisteredMsg))
              && db.users == old(db.users) + [User(old(db.nextUserId), username.value, email,
                                                   hasher.hash(password, salt), now, false)]
  {
    if FindByEmail(db.users, email).Some? || UsernameTaken(db.users, username) {
      return Response(409, Message(UserExistsMsg));
    }
    if username == None {
      return ServerError;
    }
    var newUser := User(db.nextUserId, username.value, email, hasher.hash(password, salt), now, false);
    db.users := db.users + [newUser];
    db.nextUserId := db.nextUserId + 1;
    resp := Response(201, Message(UserRegisteredMsg));
  }

  /** `login_user`: a token exactly when a user with this email exists and the password
      checks against the stored hash; otherwise 401.  Verification plays no part. */
  method LoginUser(db: AuthDb, email: string, password: string, hasher: Passwords.Hasher, token: string)
    returns (resp: Response)
    ensures resp.code == 200 <==>
              FindByEmail(db.users, email).Some? && hasher.check(FindByEmail(db.users, email).value.passwordHash, password)
    ensures resp.code == 200 ==> resp == Response(200, JObject(map["access_token" := JStr(token)]))
    ensures resp.code != 200 ==> resp == Response(401, Message(InvalidCredentialsMsg))
  {
    var user := FindByEmail(db.users, email);
    if user.Some? && hasher.check(user.value.passwordHash, password) {
      return Response(200, JObject(map["access_token" := JStr(token)]));
    }
    resp := Response(401, Message(InvalidCredentialsMsg));
  }

  /** A new user can log in straight away with the password given at registration. */
  method RegisterThenLogin(users: seq<User>, nextUserId: nat, username: string, email: string,
                           password: string, hasher: Passwords.Hasher, salt: nat, now: int, token: string)
    returns (registered: Response, loggedIn: Response)
    requires forall i :: 0 <= i < |users| ==> users[i].id < nextUserId
    requires forall i, j :: 0 <= i < j < |users| ==>
               users[i].id != users[j].id && users[i].email != users[j].email && users[i].username != users[j].username
    requires hasher.Sound()
    requires email != "" && password != ""
    requires !EmailTaken(users, email) && !UsernameTaken(users, Some(username))
    ensures registered == Response(201, Message(UserRegisteredMsg))
    ensures loggedIn == Response(200, JObject(map["access_token" := JStr(token)]))
  {
    var db := new AuthDb(users, nextUserId, map[]);
    registered := RegisterUser(db, Some(username), email, password, hasher, salt, now);
    ghost var newUser := User(nextUserId, username, email, hasher.hash(password, salt), now, false);
    assert FindByEmail(db.users, email) == Some(newUser) by {
      assert db.users[|users|] == newUser;
      var found := FindByEmail(db.users, email);
      var i :| 0 <= i < |db.users| && db.users[i] == found.value;
      assert i == |users|;
    }
    loggedIn := LoginUser(db, email, password, hasher, token);
  }

  /** Registering an email a second time is refused and the user count stays the same. */
  method RegisterTwice(users: seq<User>, nextUserId: nat, firstName: string, secondName: Option<string>,
                       email: string, password: string, hasher: Passwords.Hasher, salt: nat, now: int)
    returns (first: Response, second: Response, count: nat)
    requires forall i :: 0 <= i < |users| ==> users[i].id < nextUserId
    requires forall i, j :: 0 <= i < j < |users| ==>
               users[i].id != users[j].id && users[i].email != users[j].email && users[i].username != users[j].username
    requires email != "" && password != ""
    requires !EmailTaken(users, email) && !UsernameTaken(users, Some(firstName))
    ensures first.code == 201 && second == Response(409, Message(UserExistsMsg))
    ensures count == |users| + 1
  {
    var db := new AuthDb(users, nextUserId, map[]);
    first := RegisterUser(db, Some(firstName), email, password, hasher, salt, now);
    assert db.users[|users|].email == email;
    second := RegisterUser(db, secondName, email, password, hasher, salt, now);
    count := |db.users|;
  }

  /** Login answers the same whether or not accounts are verified. */
  method LoginIgnoresVerification(users: seq<User>, flags: seq<bool>, email: string, password: string,
                                  hasher: Passwords.Hasher, token: string)
    returns (plain: Response, flipped: Response)
    requires |flags| == |users|
    ensures plain == flipped
  {
    var db := new AuthDb(users, 0, map[]);
    var other := seq(|users|, i requires 0 <= i < |users| => users[i].(isVerified := flags[i]));
    FindIgnoresVerification(users, other, email);
    var otherDb := new AuthDb(other, 0, map[]);
    plain := LoginUser(db, email, password, hasher, token);
    flipped := LoginUser(otherDb, email, password, hasher, token);
  }

  /** Lookup by email finds the row at the same place in two tables that differ only in
      the verification flags. */
  lemma {:induction false} FindIgnoresVerification(a: seq<User>, b: seq<User>, email: string)
    requires |a| == |b|
    requires forall i :: 0 <= i < |a| ==> b[i] == a[i].(isVerified := b[i].isVerified)
    ensures FindByEmail(a, email).Some? == FindByEmail(b, email).Some?
    ensures FindByEmail(a, email).Some? ==>
              FindByEmail(b, email).value == FindByEmail(a, email).value.(isVerified := FindByEmail(b, email).value.isVerified)
  {
    if a != [] && a[0].email != email {
      FindIgnoresVerification(a[1..], b[1..], email);
    }
  }
}
