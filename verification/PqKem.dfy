/** The hybrid KEM X25519 + ML-KEM-768: composite layouts and the concatenate-then-KDF combiner. */
module PqKem {
  import opened Basics
  import opened Crypto

  const HKDF_INFO: bytes := Ascii("sk_pqc/x25519-mlkem768/v1")
  const X25519_LEN: nat := 32
  const MLKEM_PUB_LEN: nat := 1184
  const MLKEM_SECRET_LEN: nat := 2400
  const MLKEM_CT_LEN: nat := 1088
  const PUBLIC_KEY_LEN: nat := X25519_LEN + MLKEM_PUB_LEN
  const PRIVATE_KEY_LEN: nat := X25519_LEN + MLKEM_SECRET_LEN
  const CIPHERTEXT_LEN: nat := X25519_LEN + MLKEM_CT_LEN

  /** PqKemFormatError, or the bare ValueError of an X25519 exchange that hybrid_encap lets through. */
  datatype KemError = Format | Exchange

  /** The randomness of one encapsulation: the ephemeral X25519 seed and ML-KEM's own. */
  datatype Coins = Coins(ephemeral: seed, mlkem: bytes)

  datatype KeyPair = KeyPair(public: bytes, private: bytes)

  function HybridKeypair(p: Primitives, xSeed: seed, mlkemSecret: bytes): Result<KeyPair, KemError> {
    if |p.kemPublic(mlkemSecret)| != MLKEM_PUB_LEN || |mlkemSecret| != MLKEM_SECRET_LEN then Err(Format)
    else Ok(KeyPair(p.xPublic(xSeed) + p.kemPublic(mlkemSecret), xSeed + mlkemSecret))
  }

  /** A pair that key generation can produce. */
  ghost predicate IsKeyPair(p: Primitives, public: bytes, private: bytes) {
    exists x: seed, m :: HybridKeypair(p, x, m) == Ok(KeyPair(public, private))
  }

  function CombinerInput(xSecret: bytes, mlkemSecret: bytes, info: bytes): KdfInput {
    KdfInput(xSecret + mlkemSecret, [], info)
  }

  function HybridEncap(p: Primitives, public: bytes, coins: Coins, info: bytes): Result<(bytes, bytes), KemError> {
    if |public| != PUBLIC_KEY_LEN then Err(Format)
    else match p.xExchange(coins.ephemeral, public[..X25519_LEN])
      case None => Err(Exchange)
      case Some(x) =>
        match p.kemEncap(public[X25519_LEN..], coins.mlkem)
        case None => Err(Format)
        case Some((ct, m)) =>
          if |ct| != MLKEM_CT_LEN then Err(Format)
          else Ok((p.xPublic(coins.ephemeral) + ct, p.hkdf(CombinerInput(x, m, info))))
  }

  /** The two leg secrets behind a ciphertext. */
  function DecapLegs(p: Primitives, ciphertext: bytes, private: bytes): Result<(bytes, bytes), KemError> {
    if |ciphertext| != CIPHERTEXT_LEN || |private| != PRIVATE_KEY_LEN then Err(Format)
    else
      var own: seed := private[..X25519_LEN];
      match (p.xExchange(own, ciphertext[..X25519_LEN]),
             p.kemDecap(private[X25519_LEN..], ciphertext[X25519_LEN..]))
      case (Some(x), Some(m)) => Ok((x, m))
      case _ => Err(Format)
  }

  function HybridDecap(p: Primitives, ciphertext: bytes, private: bytes, info: bytes): Result<bytes, KemError> {
    match DecapLegs(p, ciphertext, private)
    case Err(e) => Err(e)
    case Ok((x, m)) => Ok(p.hkdf(CombinerInput(x, m, info)))
  }

  /** Generated keys: X25519 before ML-KEM in both halves, and which secrets they belong to. */
  lemma KeypairLayout(p: Primitives, xSeed: seed, mlkemSecret: bytes)
    requires Lawful(p)
    ensures HybridKeypair(p, xSeed, mlkemSecret).Ok?
       <==> |p.kemPublic(mlkemSecret)| == 1184 && |mlkemSecret| == 2400
    ensures HybridKeypair(p, xSeed, mlkemSecret).Ok? ==>
              var pair := HybridKeypair(p, xSeed, mlkemSecret).value;
              && |pair.public| == 1216 && |pair.private| == 2432
              && pair.public[..32] == p.xPublic(xSeed) && pair.public[32..] == p.kemPublic(mlkemSecret)
              && pair.private[..32] == xSeed && pair.private[32..] == mlkemSecret
    ensures HybridKeypair(p, xSeed, mlkemSecret).Err? ==> HybridKeypair(p, xSeed, mlkemSecret) == Err(Format)
  {
  }

  /** When encapsulation succeeds, and the error of each refusal. */
  lemma EncapAccepts(p: Primitives, public: bytes, coins: Coins, info: bytes)
    ensures var r := HybridEncap(p, public, coins, info);
      && (r == Err(Exchange) <==> |public| == 1216 && p.xExchange(coins.ephemeral, public[..32]) == None)
      && (r.Ok? <==> && |public| == 1216 && p.xExchange(coins.ephemeral, public[..32]).Some?
                     && p.kemEncap(public[32..], coins.mlkem).Some?
                     && |p.kemEncap(public[32..], coins.mlkem).value.0| == 1088)
  {
  }

  /** When decapsulation succeeds, from which parts of key and ciphertext, and its one error. */
  lemma DecapAccepts(p: Primitives, ciphertext: bytes, private: bytes, info: bytes)
    ensures var r := HybridDecap(p, ciphertext, private, info);
      && (r.Err? ==> r == Err(Format))
      && (r.Ok? <==> && |ciphertext| == 1120 && |private| == 2432
                     && p.xExchange(private[..32], ciphertext[..32]).Some?
                     && p.kemDecap(private[32..], ciphertext[32..]).Some?)
      && (r.Ok? ==> r.value == p.hkdf(KdfInput(p.xExchange(private[..32], ciphertext[..32]).value
                                               + p.kemDecap(private[32..], ciphertext[32..]).value, [], info)))
  {
  }

  /** Layout on the wire, and X25519 before ML-KEM in the combiner. */
  lemma EncapLayout(p: Primitives, public: bytes, coins: Coins, info: bytes)
    requires Lawful(p) && HybridEncap(p, public, coins, info).Ok?
    ensures var (ciphertext, shared) := HybridEncap(p, public, coins, info).value;
      && |ciphertext| == CIPHERTEXT_LEN == 1120 && |shared| == SECRET_LEN && |public| == 1216
      && ciphertext[..32] == p.xPublic(coins.ephemeral)
      && p.kemEncap(public[32..], coins.mlkem).Some?
      && ciphertext[32..] == p.kemEncap(public[32..], coins.mlkem).value.0
      && (exists ikm: bytes ::
            && |ikm| >= 32
            && p.xExchange(coins.ephemeral, public[..32]) == Some(ikm[..32])
            && p.kemEncap(public[32..], coins.mlkem).value.1 == ikm[32..]
            && shared == p.hkdf(KdfInput(ikm, [], info)))
  {
    var x := p.xExchange(coins.ephemeral, public[..32]).value;
    var m := p.kemEncap(public[32..], coins.mlkem).value.1;
    assert |x| == 32;
    var ikm := x + m;
    assert ikm[..32] == x && ikm[32..] == m;
  }

  /** Decapsulation inverts encapsulation, for every key pair, every randomness and every label. */
  lemma DecapInvertsEncap(p: Primitives, public: bytes, private: bytes, coins: Coins, info: bytes)
    requires Lawful(p) && IsKeyPair(p, public, private)
    requires HybridEncap(p, public, coins, info).Ok?
    ensures var (ciphertext, shared) := HybridEncap(p, public, coins, info).value;
      HybridDecap(p, ciphertext, private, info) == Ok(shared)
  {
    var x: seed, m :| HybridKeypair(p, x, m) == Ok(KeyPair(public, private));
    assert public[..X25519_LEN] == p.xPublic(x) && public[X25519_LEN..] == p.kemPublic(m);
    assert private[..X25519_LEN] == x && private[X25519_LEN..] == m;
    var (ciphertext, _) := HybridEncap(p, public, coins, info).value;
    var ct := p.kemEncap(p.kemPublic(m), coins.mlkem).value.0;
    assert ciphertext[..X25519_LEN] == p.xPublic(coins.ephemeral) && ciphertext[X25519_LEN..] == ct;
  }

  /** With legs of fixed length the combiner's input determines both leg secrets and the label. */
  lemma CombinerInputInjective(x: bytes, m: bytes, info: bytes, x': bytes, m': bytes, info': bytes)
    requires |x| == |x'|
    ensures CombinerInput(x, m, info) == CombinerInput(x', m', info') <==> x == x' && m == m' && info == info'
  {
    assert (x + m)[..|x|] == x && (x + m)[|x|..] == m;
    assert (x' + m')[..|x'|] == x' && (x' + m')[|x'|..] == m';
  }

  /** Two decapsulations yield one secret only if the label and both leg secrets agree, or HKDF collides:
      a change in either leg alone, or in the label, already changes the secret. */
  lemma SameSecretSameLegs(p: Primitives, c: bytes, s: bytes, info: bytes, c': bytes, s': bytes, info': bytes)
    requires Lawful(p)
    requires HybridDecap(p, c, s, info).Ok? && HybridDecap(p, c, s, info) == HybridDecap(p, c', s', info')
    ensures var (x, m) := DecapLegs(p, c, s).value;
      var (x', m') := DecapLegs(p, c', s').value;
      (x == x' && m == m' && info == info')
      || KdfCollision(p, CombinerInput(x, m, info), CombinerInput(x', m', info'))
  {
    var (x, m) := DecapLegs(p, c, s).value;
    var (x', m') := DecapLegs(p, c', s').value;
    CombinerInputInjective(x, m, info, x', m', info');
  }

  /** What decapsulating another ciphertext comes to: refused legs give an error, the same legs the same
      secret, and other legs another secret, or HKDF collides. */
  lemma OtherCiphertext(p: Primitives, c: bytes, c': bytes, private: bytes, info: bytes)
    requires Lawful(p) && HybridDecap(p, c, private, info).Ok?
    ensures DecapLegs(p, c', private).Err? ==> HybridDecap(p, c', private, info) == Err(Format)
    ensures DecapLegs(p, c', private) == DecapLegs(p, c, private) ==>
              HybridDecap(p, c', private, info) == HybridDecap(p, c, private, info)
    ensures DecapLegs(p, c', private).Ok? && DecapLegs(p, c', private) != DecapLegs(p, c, private) ==>
              var (x, m) := DecapLegs(p, c, private).value;
              var (x', m') := DecapLegs(p, c', private).value;
              || (HybridDecap(p, c', private, info).Ok? && HybridDecap(p, c', private, info) != HybridDecap(p, c, private, info))
              || KdfCollision(p, CombinerInput(x, m, info), CombinerInput(x', m', info))
  {
    if HybridDecap(p, c, private, info) == HybridDecap(p, c', private, info) {
      SameSecretSameLegs(p, c, private, info, c', private, info);
    }
  }

  /** There are such other ciphertexts: X25519 ignores the top bit of the coordinate it receives, and the
      combiner hashes the leg secrets alone, so flipping that bit changes the ciphertext and nothing else. */
  lemma FlippedLegs(p: Primitives, c: bytes, private: bytes)
    requires MasksTopBit(p) && |c| >= 32
    ensures FlipTopBit(c) != c && DecapLegs(p, FlipTopBit(c), private) == DecapLegs(p, c, private)
    ensures forall info :: HybridDecap(p, FlipTopBit(c), private, info) == HybridDecap(p, c, private, info)
  {
    if |c| == CIPHERTEXT_LEN {
      assert FlipTopBit(c)[..X25519_LEN] == FlipTopBit(c[..X25519_LEN]);
    }
  }
}
