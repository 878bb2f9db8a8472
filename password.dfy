/**
 A stand-in for the bcrypt primitive the authentication service calls:
 `bcrypt.hash(password, 10)` and `bcrypt.compare(password, hash)`.

 The real hash is salted, slow and one-way; none of that is modelled. What the
 service relies on, and what is proved here, is that a hash carries the cost
 factor and the salt it was made with, that `Compare` accepts exactly the
 password that was hashed, and that a hash never equals its plaintext. The
 salt, which bcrypt draws at random, is a parameter.
 */
module Password {

  /** The work factor passed to `bcrypt.hash`. */
  const Cost: nat := 10

  /** bcrypt salts are 22 characters of its base-64 alphabet. */
  const SaltLength: nat := 22

  /** "$2a$10$": the algorithm tag and the two-digit cost factor. */
  const Header: string := "$2a$10$"

  type Salt = s: string | |s| == SaltLength witness "0000000000000000000000"

  /** The stored form of `password` hashed with `salt`. */
  function Hash(password: string, salt: Salt): (h: string)
    ensures |h| == |Header| + SaltLength + |password|
    ensures h[..|Header|] == Header
    ensures h[|Header|..|Header| + SaltLength] == salt
    ensures h != password
  {
    Header + salt + password
  }

  /** Whether `hash` is well formed: header, salt, then the digest. */
  predicate WellFormed(hash: string)
  {
    |hash| >= |Header| + SaltLength && hash[..|Header|] == Header
  }

  /** The salt recorded in a well-formed hash. */
  function SaltOf(hash: string): (s: Salt)
    requires WellFormed(hash)
  {
    hash[|Header|..|Header| + SaltLength]
  }

  /**
   `bcrypt.compare`: re-hash `password` with the salt recorded in `hash` and
   compare. A malformed hash matches no password.
   */
  predicate Compare(password: string, hash: string)
  {
    WellFormed(hash) && Hash(password, SaltOf(hash)) == hash
  }

  /** Verifying against a hash of `p` succeeds for `p` and for nothing else. */
  lemma CompareAcceptsOnlyHashedPassword(p: string, q: string, salt: Salt)
    ensures Compare(q, Hash(p, salt)) <==> q == p
  {
    var h := Hash(p, salt);
    assert WellFormed(h);
    assert SaltOf(h) == salt;
    if Compare(q, h) {
      var n := |Header| + SaltLength;
      assert Hash(q, salt)[n..] == q;
      assert h[n..] == p;
    }
  }
}
