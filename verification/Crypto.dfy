/** The library primitives, as functions of which only correctness is known. Nothing is assumed to
    be collision-free or unforgeable: the security results name the collision or the forgery that a
    violation would exhibit. */
module Crypto {
  import opened Basics

  /** The arguments of one 32-byte HKDF-SHA256 derivation. */
  datatype KdfInput = KdfInput(ikm: bytes, salt: bytes, info: bytes)

  const SECRET_LEN: nat := 32
  const NONCE_LEN: nat := 12
  const TAG_LEN: nat := 16

  type seed = b: bytes | |b| == SECRET_LEN witness seq(SECRET_LEN, _ => 0)

  /** Options are None where the library raises. An absent AAD is the empty one. */
  datatype Primitives = Primitives(
    hkdf: KdfInput -> bytes,
    sha256: bytes -> bytes,
    aeadSeal: (bytes, bytes, bytes, bytes) -> bytes,         // key, nonce, plaintext, aad
    aeadOpen: (bytes, bytes, bytes, bytes) -> Option<bytes>, // key, nonce, ciphertext, aad
    xPublic: seed -> bytes,
    xExchange: (seed, bytes) -> Option<bytes>,               // own private, peer public
    kemPublic: bytes -> bytes,
    kemEncap: (bytes, bytes) -> Option<(bytes, bytes)>,      // public, randomness
    kemDecap: (bytes, bytes) -> Option<bytes>                // secret, ciphertext
  )

  ghost predicate LawfulHash(p: Primitives) {
    && (forall i :: |p.hkdf(i)| == SECRET_LEN)
    && (forall b :: |p.sha256(b)| == SECRET_LEN)
  }

  ghost predicate LawfulAead(p: Primitives) {
    && (forall k, n, m, a :: |k| == SECRET_LEN && |n| == NONCE_LEN ==>
         |p.aeadSeal(k, n, m, a)| == |m| + TAG_LEN && p.aeadOpen(k, n, p.aeadSeal(k, n, m, a), a) == Some(m))
    && (forall k, n, c, a :: p.aeadOpen(k, n, c, a).Some? ==> |c| == |p.aeadOpen(k, n, c, a).value| + TAG_LEN)
  }

  /** Section 6.1 of RFC 7748: both sides of an exchange obtain the same secret, or both refuse. */
  ghost predicate LawfulExchange(p: Primitives) {
    && (forall s :: |p.xPublic(s)| == SECRET_LEN)
    && (forall s, t :: p.xExchange(s, p.xPublic(t)) == p.xExchange(t, p.xPublic(s)))
    && (forall s, q :: p.xExchange(s, q).Some? ==> |p.xExchange(s, q).value| == SECRET_LEN)
  }

  /** Section 7 of FIPS 203: decapsulation undoes encapsulation, and secrets have 32 bytes. */
  ghost predicate LawfulKem(p: Primitives) {
    && (forall s, r :: p.kemEncap(p.kemPublic(s), r).Some? ==>
         p.kemDecap(s, p.kemEncap(p.kemPublic(s), r).value.0) == Some(p.kemEncap(p.kemPublic(s), r).value.1))
    && (forall s, c :: p.kemDecap(s, c).Some? ==> |p.kemDecap(s, c).value| == SECRET_LEN)
  }

  ghost predicate Lawful(p: Primitives) {
    LawfulHash(p) && LawfulAead(p) && LawfulExchange(p) && LawfulKem(p)
  }

  /** The 32 bytes with the most significant bit of the last one flipped, and what follows them as it is. */
  function FlipTopBit(b: bytes): (r: bytes)
    requires |b| >= 32
    ensures |r| == |b| && r != b
    ensures r[..31] == b[..31] && r[32..] == b[32..]
  {
    b[31 := (b[31] as int + 0x80) % 0x100]
  }

  lemma FlippedFront(b: bytes, n: nat)
    requires 32 <= n <= |b|
    ensures FlipTopBit(b)[..n] == FlipTopBit(b[..n]) && FlipTopBit(b)[n..] == b[n..]
  {
  }

  /** Section 5 of RFC 7748: an X25519 implementation masks the most significant bit of the coordinate it
      receives. True of every conforming library, and used only where a lemma says so. */
  ghost predicate MasksTopBit(p: Primitives) {
    forall s, q :: |q| == 32 ==> p.xExchange(s, FlipTopBit(q)) == p.xExchange(s, q)
  }

  function Zeros(n: nat): (b: bytes)
    ensures |b| == n
  {
    seq(n, _ => 0)
  }

  /** A worthless instance that obeys the laws. */
  function ToyPrimitives(): Primitives {
    Primitives(
      (i: KdfInput) => Zeros(SECRET_LEN),
      (b: bytes) => Zeros(SECRET_LEN),
      (k: bytes, n: bytes, m: bytes, a: bytes) => m + Zeros(TAG_LEN),
      (k: bytes, n: bytes, c: bytes, a: bytes) => if |c| < TAG_LEN then None else Some(c[..|c| - TAG_LEN]),
      (s: seed) => s,
      (s: seed, q: bytes) => Some(Zeros(SECRET_LEN)),
      (s: bytes) => Zeros(1184),
      (q: bytes, r: bytes) => Some((Zeros(1088), Zeros(SECRET_LEN))),
      (s: bytes, c: bytes) => Some(Zeros(SECRET_LEN))
    )
  }

  /** The laws are satisfiable, so no result rests on contradictory hypotheses. */
  lemma LawsSatisfiable()
    ensures Lawful(ToyPrimitives()) && MasksTopBit(ToyPrimitives())
  {
    var p := ToyPrimitives();
    forall m: bytes
      ensures (m + Zeros(TAG_LEN))[..|m|] == m
    {
    }
  }

  // ---- what a violation would exhibit ----

  /** Two different derivations with the same key. */
  ghost predicate KdfCollision(p: Primitives, i: KdfInput, j: KdfInput) {
    i != j && p.hkdf(i) == p.hkdf(j)
  }

  ghost predicate ShaCollision(p: Primitives, a: bytes, b: bytes) {
    a != b && p.sha256(a) == p.sha256(b)
  }

  /** An encryption that honest code performed. */
  datatype AeadCall = AeadCall(key: bytes, nonce: bytes, plaintext: bytes, aad: bytes)

  function Ciphertext(p: Primitives, c: AeadCall): bytes {
    p.aeadSeal(c.key, c.nonce, c.plaintext, c.aad)
  }

  /** The ciphertext of call c opens, under this key, with associated data it was not made with. Under
      c's own key that is a forgery. */
  ghost predicate OpensForeign(p: Primitives, c: AeadCall, key: bytes, aad: bytes) {
    aad != c.aad && p.aeadOpen(key, c.nonce, Ciphertext(p, c), aad).Some?
  }

  /** The AEAD accepts a key, nonce, ciphertext and associated data that are not together those of call c. */
  ghost predicate AcceptsUnsealed(p: Primitives, c: AeadCall, key: bytes, nonce: bytes, ct: bytes, aad: bytes) {
    && (key != c.key || nonce != c.nonce || ct != Ciphertext(p, c) || aad != c.aad)
    && p.aeadOpen(key, nonce, ct, aad).Some?
  }

  /** The ciphertext of call c opens under a key it was not made with. */
  ghost predicate CrossKeyOpen(p: Primitives, c: AeadCall, key: bytes) {
    key != c.key && p.aeadOpen(key, c.nonce, Ciphertext(p, c), c.aad).Some?
  }
}
