/**
 * Salted password hashing of the store: the stored hash is the 32-character
 * salt followed by the hex digest of the key-derivation function.
 */
module Passwords {

  /**
   * PBKDF2-HMAC-SHA256 with 100000 rounds, from password and salt to the hex
   * digest. Its internals are not modelled: every property below holds for
   * any such function.
   */
  type Kdf = (string, string) -> string

  const SaltLength := 32

  predicate IsHexDigit(c: char) {
    '0' <= c <= '9' || 'a' <= c <= 'f'
  }

  /** What `secrets.token_hex(16)` produces: 32 lower-case hex digits. */
  type Salt = s: string | |s| == SaltLength && forall i :: 0 <= i < |s| ==> IsHexDigit(s[i])
    witness "00000000000000000000000000000000"

  /** `_hash_password`, with the random salt as a parameter. */
  function HashPassword(kdf: Kdf, password: string, salt: Salt): string {
    salt + kdf(password, salt)
  }

  /**
   * `_verify_password`: the first 32 characters are the salt and the rest is
   * the digest; like a Python slice, a shorter hash is all salt and no digest.
   */
  function VerifyPassword(kdf: Kdf, password: string, passwordHash: string): bool {
    var cut := if |passwordHash| < SaltLength then |passwordHash| else SaltLength;
    kdf(password, passwordHash[..cut]) == passwordHash[cut..]
  }

  /** The stored hash splits back into the salt and the digest it was made of. */
  lemma HashLayout(kdf: Kdf, password: string, salt: Salt)
    ensures |HashPassword(kdf, password, salt)| >= SaltLength
    ensures HashPassword(kdf, password, salt)[..SaltLength] == salt
    ensures HashPassword(kdf, password, salt)[SaltLength..] == kdf(password, salt)
  {
  }

  /** A password verifies against the hash made from it, whatever the salt. */
  lemma HashThenVerify(kdf: Kdf, password: string, salt: Salt)
    ensures VerifyPassword(kdf, password, HashPassword(kdf, password, salt))
  {
    HashLayout(kdf, password, salt);
  }

  /** Another password verifies exactly when it yields the same digest under that salt. */
  lemma VerifyOtherPassword(kdf: Kdf, candidate: string, password: string, salt: Salt)
    ensures VerifyPassword(kdf, candidate, HashPassword(kdf, password, salt))
            <==> kdf(candidate, salt) == kdf(password, salt)
  {
    HashLayout(kdf, password, salt);
  }
}
