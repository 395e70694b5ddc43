/** SHA-256 digests (utils/hash/sha256.hpp). */
module Hashing {
  import opened Basics

  type Hash = h: Bytes | |h| == 32 witness
    [0, 0, 0, 0, 0, 0, 0, 0, 0, 0, 0, 0, 0, 0, 0, 0, 0, 0, 0, 0, 0, 0, 0, 0, 0, 0, 0, 0, 0, 0, 0, 0]

  /** The all-zero digest; `Hash256::empty` recognises it. */
  const ZERO_HASH: Hash :=
    [0, 0, 0, 0, 0, 0, 0, 0, 0, 0, 0, 0, 0, 0, 0, 0, 0, 0, 0, 0, 0, 0, 0, 0, 0, 0, 0, 0, 0, 0, 0, 0]

  /**
   A digest function together with the byte strings that one history of the system hashes.
   A 32-byte digest cannot be injective on all strings; what the system relies on is that
   the strings it really hashes do not collide and do not hash to zero.
   */
  datatype Digest = Digest(sha: Bytes -> Hash, hashed: iset<Bytes>)

  ghost predicate CollisionFree(d: Digest) {
    && (forall x :: x in d.hashed ==> d.sha(x) != ZERO_HASH)
    && (forall x, y :: x in d.hashed && y in d.hashed && d.sha(x) == d.sha(y) ==> x == y)
  }
}
