/** The password hashing of API/src/app/hashing.py (passlib's bcrypt context),
    abstracted to a pair of functions and the one law the handlers rely on. */
module Credentials {

  /** Every bcrypt hash in modular crypt format (`$2b$12$` + salt + digest)
      is 60 characters long. */
  const BcryptHashLength := 60

  /** `hash_password` and `verify_password`. */
  datatype Bcrypt = Bcrypt(hash: string -> string, verify: (string, string) -> bool)

  /** A password always verifies against its own hash, and the hash has the
      bcrypt length. */
  ghost predicate Sound(crypt: Bcrypt) {
    forall password :: crypt.verify(password, crypt.hash(password)) && |crypt.hash(password)| == BcryptHashLength
  }
}
