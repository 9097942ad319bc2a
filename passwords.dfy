/**
 * Password hashing, abstracted.  The salted hash werkzeug computes is modelled
 * symbolically: a hash remembers which password it was made from, it is a
 * value of its own type (never a plain string), and the only question that can
 * be asked of it is whether a candidate password matches.
 */
module Passwords {

  datatype PasswordHash = PasswordHash(hashed: string)

  /** `generate_password_hash`. */
  function Hash(password: string): PasswordHash {
    PasswordHash(password)
  }

  /** `check_password_hash`. */
  predicate Check(h: PasswordHash, candidate: string) {
    h.hashed == candidate
  }

  /** A hash accepts the password it was made from and no other. */
  lemma CheckHash(password: string, candidate: string)
    ensures Check(Hash(password), candidate) <==> candidate == password
  {
  }
}
