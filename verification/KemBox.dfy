/** What the sealed formats of the package have in common: an AEAD ciphertext under a key that is derived
    from a KEM ciphertext. Neither that key nor the AEAD covers the bytes of the KEM ciphertext, so the
    results here say exactly which other ciphertexts do as well. */
module KemBox {
  import opened Basics
  import opened Crypto
  import opened PqKem

  /** The key behind a KEM ciphertext, for the use that info names. */
  function BoxKey(p: Primitives, x: bytes, private: bytes, info: bytes): Option<bytes> {
    match HybridDecap(p, x, private, HKDF_INFO)
    case Err(_) => None
    case Ok(shared) => Some(p.hkdf(KdfInput(shared, [], info)))
  }

  function BoxOpen(p: Primitives, x: bytes, private: bytes, info: bytes, nonce: bytes, ct: bytes, aad: bytes): Option<bytes> {
    match BoxKey(p, x, private, info)
    case None => None
    case Some(key) => p.aeadOpen(key, nonce, ct, aad)
  }

  /** Two KEM ciphertexts with the same leg secrets, or with an HKDF collision in the combiner or behind it. */
  ghost predicate OneKey(p: Primitives, x: bytes, x': bytes, private: bytes, info: bytes) {
    && DecapLegs(p, x, private).Ok? && DecapLegs(p, x', private).Ok?
    && var (s, m) := DecapLegs(p, x, private).value;
       var (s', m') := DecapLegs(p, x', private).value;
       var i, i' := CombinerInput(s, m, HKDF_INFO), CombinerInput(s', m', HKDF_INFO);
       || (s == s' && m == m')
       || KdfCollision(p, i, i')
       || KdfCollision(p, KdfInput(p.hkdf(i), [], info), KdfInput(p.hkdf(i'), [], info))
  }

  /** Exactly these ciphertexts lead to one key. */
  lemma OneKeyExact(p: Primitives, x: bytes, x': bytes, private: bytes, info: bytes)
    requires Lawful(p) && BoxKey(p, x, private, info).Some?
    ensures BoxKey(p, x', private, info) == BoxKey(p, x, private, info) <==> OneKey(p, x, x', private, info)
  {
    hide DecapLegs;
    if BoxKey(p, x', private, info).Some? {
      var (s, m) := DecapLegs(p, x, private).value;
      var (s', m') := DecapLegs(p, x', private).value;
      LegLengths(p, x, private);
      LegLengths(p, x', private);
      CombinerInputInjective(s, m, HKDF_INFO, s', m', HKDF_INFO);
    }
  }

  lemma KemRefusal(p: Primitives, x: bytes, private: bytes)
    ensures DecapLegs(p, x, private).Err? ==> HybridDecap(p, x, private, HKDF_INFO) == Err(Format)
    ensures DecapLegs(p, x, private).Ok? ==> HybridDecap(p, x, private, HKDF_INFO).Ok?
  {
  }

  lemma LegsMeasured(p: Primitives, x: bytes, private: bytes)
    requires DecapLegs(p, x, private).Ok?
    ensures |x| == CIPHERTEXT_LEN
  {
  }

  lemma LegLengths(p: Primitives, x: bytes, private: bytes)
    requires Lawful(p) && DecapLegs(p, x, private).Ok?
    ensures |DecapLegs(p, x, private).value.0| == SECRET_LEN
  {
  }

  /** The box of a sealing call, opened with any other parts: with the same nonce, ciphertext and AAD and a
      KEM ciphertext for the same key it gives the plaintext; in all other cases nothing, unless the AEAD
      accepts what was never sealed. */
  lemma BoxOpensExactly(p: Primitives, x: bytes, private: bytes, info: bytes, call: AeadCall,
                        x': bytes, info': bytes, nonce': bytes, ct': bytes, aad': bytes)
    requires Lawful(p) && |call.nonce| == NONCE_LEN && BoxKey(p, x, private, info) == Some(call.key)
    requires aad' == call.aad ==> info' == info
    ensures var r := BoxOpen(p, x', private, info', nonce', ct', aad');
      match BoxKey(p, x', private, info')
      case None => r == None && DecapLegs(p, x', private).Err?
      case Some(key') =>
        if aad' == call.aad && nonce' == call.nonce && ct' == Ciphertext(p, call) && OneKey(p, x, x', private, info)
        then r == Some(call.plaintext)
        else r == None || AcceptsUnsealed(p, call, key', nonce', ct', aad')
  {
    hide DecapLegs, OneKey;
    assert |call.key| == SECRET_LEN;
    OneKeyExact(p, x, x', private, info);
  }

  /** Another KEM ciphertext in place of the sealed one and nothing else changed: refused by the KEM it
      gives nothing, with the same key the plaintext, and with another key nothing, unless the AEAD
      accepts the ciphertext under that key as well. */
  lemma BoxSwapExactly(p: Primitives, x: bytes, private: bytes, info: bytes, call: AeadCall, x': bytes)
    requires Lawful(p) && |call.nonce| == NONCE_LEN && BoxKey(p, x, private, info) == Some(call.key)
    ensures var r := BoxOpen(p, x', private, info, call.nonce, Ciphertext(p, call), call.aad);
      if DecapLegs(p, x', private).Err? then r == None
      else if OneKey(p, x, x', private, info) then r == Some(call.plaintext)
      else BoxKey(p, x', private, info).Some?
           && (r == None || CrossKeyOpen(p, call, BoxKey(p, x', private, info).value))
  {
    hide DecapLegs, OneKey;
    assert |call.key| == SECRET_LEN;
    OneKeyExact(p, x, x', private, info);
  }

  lemma SplitTail(t: bytes, nonce: bytes, ct: bytes)
    requires |t| >= NONCE_LEN && |nonce| == NONCE_LEN
    ensures t == nonce + ct <==> t[..NONCE_LEN] == nonce && t[NONCE_LEN..] == ct
  {
  }

  /** A ciphertext with its top bit flipped is one of those for the same key. */
  lemma FlippedOneKey(p: Primitives, x: bytes, private: bytes, info: bytes)
    requires MasksTopBit(p) && DecapLegs(p, x, private).Ok?
    ensures OneKey(p, x, FlipTopBit(x), private, info)
  {
    LegsMeasured(p, x, private);
    hide DecapLegs;
    FlippedLegs(p, x, private);
  }
}
