/** Password hashing (`encryptPassword`, `verifyPassword`, and the inline
    hashing in the reset handler). bcrypt itself is not modelled: a digest
    records the salt and cost factor it was made with and stands for the
    password it was made from, so verification is exact. The salt is the
    random input that `bcrypt.genSalt` would draw and is passed in. */
module Passwords {

  /** The cost factor passed to `bcrypt.genSalt`. */
  const Rounds: nat := 12

  datatype Digest = Digest(salt: string, rounds: nat, secret: string)

  /** `bcrypt.compare(plain, hashed)`. */
  predicate VerifyPassword(hashed: Digest, plain: string) {
    hashed.secret == plain
  }

  /** `encryptPassword`: a salted digest that verifies against the password
      it was made from. */
  function EncryptPassword(password: string, salt: string): (h: Digest)
    ensures VerifyPassword(h, password)
    ensures h.salt == salt && h.rounds == Rounds
  {
    Digest(salt, Rounds, password)
  }

  /** A digest verifies against its own password and against no other one,
      whatever the salt. */
  lemma VerifyOnlyOwnPassword(password: string, other: string, salt: string)
    ensures VerifyPassword(EncryptPassword(password, salt), other) <==> other == password
  {
  }

  /** Re-hashing the same password with a fresh salt gives a different digest,
      and both verify. */
  lemma SaltsSeparateDigests(password: string, salt1: string, salt2: string)
    requires salt1 != salt2
    ensures EncryptPassword(password, salt1) != EncryptPassword(password, salt2)
    ensures VerifyPassword(EncryptPassword(password, salt1), password)
    ensures VerifyPassword(EncryptPassword(password, salt2), password)
  {
  }
}
