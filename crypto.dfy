/** The password hash of bcryptjs, abstracted. `Hash(salt, p)` stands for
 *  `bcrypt.hash(p, 10)` run with the salt `salt`; every call site receives
 *  its salt as a parameter, as a fresh random value would arrive. A hash is
 *  the version-and-cost prefix, the salt, and (in place of the digest) the
 *  plaintext itself. `Compare(c, h)` is `bcrypt.compare(c, h)`: it takes the
 *  salt out of `h` and checks `h` against the hash of `c` with that salt. The
 *  lemmas below state what the rest of the model uses of this stand-in. */
module Crypto {

  const HashPrefix: string := "$2b$10$"

  /** bcrypt encodes its 16 salt bytes as 22 characters. */
  const SaltLength: nat := 22

  type Salt = s: string | |s| == SaltLength witness "......................"

  function Hash(salt: Salt, plain: string): string {
    HashPrefix + salt + plain
  }

  /** Whether the stored value has the shape of a hash and carries `salt`. */
  predicate HashedWith(stored: string, salt: Salt) {
    |stored| >= |HashPrefix| + SaltLength && stored[..|HashPrefix|] == HashPrefix
    && stored[|HashPrefix|..|HashPrefix| + SaltLength] == salt
  }

  /** `bcrypt.compare(candidate, stored)`: the salt read from `stored`, rehashing
   *  `candidate` with it, and a comparison. A stored value that does not have
   *  the shape of a hash compares unequal. */
  predicate Compare(candidate: string, stored: string) {
    |stored| >= |HashPrefix| + SaltLength && stored[..|HashPrefix|] == HashPrefix
    && stored[|HashPrefix| + SaltLength..] == candidate
  }

  /** A password matches its own hash, whatever the salt, and the hash carries
   *  that salt. */
  lemma CompareOwnHash(salt: Salt, p: string)
    ensures Compare(p, Hash(salt, p))
    ensures HashedWith(Hash(salt, p), salt)
  {
    var h := Hash(salt, p);
    assert h[..|HashPrefix|] == HashPrefix;
    assert h[|HashPrefix|..|HashPrefix| + SaltLength] == salt;
    assert h[|HashPrefix| + SaltLength..] == p;
  }

  /** A candidate compares equal to a stored value iff that value is the hash of
   *  the candidate under some salt. */
  lemma CompareMeansHashed(candidate: string, stored: string)
    ensures Compare(candidate, stored) <==> exists salt: Salt :: stored == Hash(salt, candidate)
  {
    if Compare(candidate, stored) {
      var salt: Salt := stored[|HashPrefix|..|HashPrefix| + SaltLength];
      assert stored == stored[..|HashPrefix|] + stored[|HashPrefix|..|HashPrefix| + SaltLength]
                       + stored[|HashPrefix| + SaltLength..];
      assert stored == Hash(salt, candidate);
    }
    if exists salt: Salt :: stored == Hash(salt, candidate) {
      var salt: Salt :| stored == Hash(salt, candidate);
      CompareOwnHash(salt, candidate);
    }
  }

  /** A password matches the hash of no other password, under any salt. */
  lemma CompareOnlyOwnHash(p: string, salt: Salt, q: string)
    ensures Compare(p, Hash(salt, q)) <==> p == q
  {
    CompareOwnHash(salt, q);
  }

  /** Hashing always changes the value and never yields the empty string. */
  lemma HashChanges(salt: Salt, p: string)
    ensures Hash(salt, p) != p
    ensures Hash(salt, p) != ""
  {
    assert |Hash(salt, p)| == |p| + |HashPrefix| + SaltLength;
  }

  /** Hashes made with different salts differ, whatever the passwords. */
  lemma SaltsSeparate(s: Salt, t: Salt, p: string, q: string)
    requires s != t
    ensures Hash(s, p) != Hash(t, q)
    ensures !HashedWith(Hash(s, p), t)
  {
    CompareOwnHash(s, p);
    CompareOwnHash(t, q);
  }

  /** A password does not match the hash of its own hash, whatever the two
   *  salts. */
  lemma DoubleHashRejects(p: string, inner: Salt, outer: Salt)
    ensures !Compare(p, Hash(outer, Hash(inner, p)))
  {
    CompareOnlyOwnHash(p, outer, Hash(inner, p));
    HashChanges(inner, p);
  }
}
