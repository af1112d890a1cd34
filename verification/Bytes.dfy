/** Byte strings, and hash functions as parameters. */
module Bytes {
  type byte = b: int | 0 <= b < 256
  type Bytes = seq<byte>

  /** A 32-byte hash such as SHA-256 or Keccak-256.  Nothing is known of it but its output width. */
  type Hash = Bytes -> Bytes

  ghost predicate IsHash32(h: Hash) {
    forall b: Bytes {:trigger h(b)} :: |h(b)| == 32
  }

  ghost predicate ToldApart(h: Hash, a: Bytes, b: Bytes) {
    h(a) == h(b) ==> a == b
  }

  /**
   No two different byte strings of s hash alike.  Every use takes s to be the (finite) set of byte
   strings that the computations under discussion really feed to the hash, so "there is a collision"
   means a collision that those computations exhibit.
   */
  ghost predicate CollisionFreeOn(h: Hash, s: set<Bytes>) {
    forall a, b {:trigger ToldApart(h, a, b)} :: a in s && b in s ==> ToldApart(h, a, b)
  }
}
