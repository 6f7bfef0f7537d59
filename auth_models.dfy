/**
 * The tables of the `auth` package (auth/models/user.py, auth/models/verification.py):
 * registered users, and the pending email verifications, one per address.
 *
 * Time is an integer count of microseconds, as in the auth service routes.
 */
module AuthModels {
  import opened Wrappers

  /** `timedelta(minutes=10)` in microseconds: how long a one-time code stays good. */
  const CodeLifetime: int := 600 * 1000000

  /** A row of `users`; `username` and `email` are unique and not null. */
  datatype User = User(
    id: nat,
    username: string,
    email: string,
    passwordHash: string,
    createdAt: int,
    isVerified: bool)

  /** A row of `verifications`, kept under its (unique) email. */
  datatype Pending = Pending(otp: string, otpExpiry: int, createdAt: int)

  /** `User.query.filter_by(email=email).first()` finds a row. */
  predicate EmailTaken(users: seq<User>, email: string) {
    exists i :: 0 <= i < |users| && users[i].email == email
  }

  /** `User.query.filter_by(username=username).first()` finds a row; filtering on `None`
      asks for a null username, which the column does not allow. */
  predicate UsernameTaken(users: seq<User>, username: Option<string>) {
    username.Some? && exists i :: 0 <= i < |users| && users[i].username == username.value
  }

  class AuthDb {
    /** The rows of `users`, in insertion order. */
    var users: seq<User>
    /** The id the next inserted user receives. */
    var nextUserId: nat
    /** The rows of `verifications`, by email. */
    var verifications: map<string, Pending>

    ghost predicate Valid()
      reads this
    {
      && (forall i :: 0 <= i < |users| ==> users[i].id < nextUserId)
      && (forall i, j :: 0 <= i < j < |users| ==>
            users[i].id != users[j].id && users[i].email != users[j].email
            && users[i].username != users[j].username)
    }

    constructor (users: seq<User>, nextUserId: nat, verifications: map<string, Pending>)
      ensures this.users == users && this.nextUserId == nextUserId && this.verifications == verifications
    {
      this.users := users;
      this.nextUserId := nextUserId;
      this.verifications := verifications;
    }
  }

  /** The row with this email, when there is one. */
  function FindByEmail(users: seq<User>, email: string): (r: Option<User>)
    ensures r.Some? <==> EmailTaken(users, email)
    ensures r.Some? ==> r.value in users && r.value.email == email
  {
    if users == [] then None
    else if users[0].email == email then Some(users[0])
    else
      var rest := FindByEmail(users[1..], email);
      assert EmailTaken(users, email) ==> users[0].email == email || EmailTaken(users[1..], email) by {
        if EmailTaken(users, email) {
          var i :| 0 <= i < |users| && users[i].email == email;
          if i > 0 {
            assert users[1..][i - 1] == users[i];
          }
        }
      }
      assert EmailTaken(users[1..], email) ==> EmailTaken(users, email) by {
        if EmailTaken(users[1..], email) {
          var i :| 0 <= i < |users[1..]| && users[1..][i].email == email;
          assert users[i + 1] == users[1..][i];
        }
      }
      rest
  }
}
