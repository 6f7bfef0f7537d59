/**
 * Salted password hashing (werkzeug's `generate_password_hash` and
 * `check_password_hash`, bcrypt's `generate_password_hash` and `check_password_hash`),
 * left abstract: the model knows only that a hash checks against the password it was
 * made from.
 */
module Passwords {
  /** `hash(password, salt)` is the stored text; `check(stored, password)` the test. */
  datatype Hasher = Hasher(hash: (string, nat) -> string, check: (string, string) -> bool)
  {
    ghost predicate Sound() {
      forall password, salt :: check(hash(password, salt), password)
    }
  }

  /** A hasher that meets `Sound()`, so the assumption is consistent. */
  function PlainHasher(): Hasher {
    Hasher((password, salt) => password, (stored, password) => stored == password)
  }

  lemma PlainHasherSound()
    ensures PlainHasher().Sound()
  {
  }
}
