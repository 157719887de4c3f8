/** The pqroute1 envelope: a readable route header in front of a sealed inner part that it is bound to. */
module PqRoute {
  import opened Basics
  import opened Crypto
  import opened Json
  import opened JsonCanonical
  import opened JsonRoundTrip
  import opened KemBox
  import opened PqKem

  const ROUTE_SUITE: bytes := Ascii("pqroute1")
  const INFO_WRAP: bytes := Ascii("skcomms/pqroute/wrap/v1")
  const PIPE: ascii := '|' as int
  const LEN_PREFIX: nat := 4
  const SEALED_MIN_LEN: nat := CIPHERTEXT_LEN + NONCE_LEN + TAG_LEN

  /** PqRouteFormatError, PqRouteOpenError, the struct.error of a length beyond 32 bits, or the bare
      ValueError of a refused X25519 exchange. */
  datatype RouteError = Malformed | OpenFailed | TooLong | KeyExchange

  function Aad(header: bytes): bytes {
    ROUTE_SUITE + [PIPE] + header
  }

  function WrapInfo(aad: bytes): bytes {
    INFO_WRAP + [PIPE] + aad
  }

  function WrapKeyInput(shared: bytes, aad: bytes): KdfInput {
    KdfInput(shared, [], WrapInfo(aad))
  }

  // ---- framing ----

  /** A length prefix and the part it measures. */
  function Framed(part: bytes): bytes
    requires |part| < TWO32
  {
    U32(|part|) + part
  }

  /** Cut off a framed part; None when the prefix is short or promises more than there is. */
  function Unframe(b: bytes): Option<(bytes, bytes)> {
    if |b| < LEN_PREFIX then None
    else
      var end := LEN_PREFIX + FromBigEndian(b[..LEN_PREFIX]);
      if end > |b| then None else Some((b[LEN_PREFIX..end], b[end..]))
  }

  /** `_split_outer` */
  function SplitOuter(blob: bytes): Result<(bytes, bytes), RouteError> {
    match Unframe(blob)
    case None => Err(Malformed)
    case Some((header, sealed)) => Ok((header, sealed))
  }

  /** A byte string unframes to a part and a rest exactly when it is the one framed before the other:
      the parser accepts nothing else and nothing can be split in two ways. */
  lemma FramingExact(b: bytes, part: bytes, rest: bytes)
    ensures Unframe(b) == Some((part, rest)) <==> |part| < TWO32 && b == U32(|part|) + part + rest
  {
    if |part| < TWO32 && b == U32(|part|) + part + rest {
      U32RoundTrip(|part|);
      assert b[..LEN_PREFIX] == U32(|part|);
      assert b[LEN_PREFIX..LEN_PREFIX + |part|] == part && b[LEN_PREFIX + |part|..] == rest;
    }
    if Unframe(b) == Some((part, rest)) {
      U32Unique(b[..LEN_PREFIX]);
      assert b == b[..LEN_PREFIX] + part + rest;
    }
  }

  // ---- seal ----

  function Inner(metadata: bytes, content: bytes): bytes
    requires |metadata| < TWO32
  {
    Framed(metadata) + content
  }

  function SealRouted(p: Primitives, metadata: Json, content: bytes, public: bytes, header: Json,
                      coins: Coins, nonce: bytes): Result<bytes, RouteError>
  {
    if |public| != PUBLIC_KEY_LEN then Err(Malformed)
    else
      var route := Dumps(header);
      var meta := Dumps(metadata);
      if |meta| >= TWO32 then Err(TooLong)
      else
        var aad := Aad(route);
        match HybridEncap(p, public, coins, HKDF_INFO)
        case Err(e) => Err(if e.Exchange? then KeyExchange else Malformed)
        case Ok((ciphertext, shared)) =>
          if |route| >= TWO32 then Err(TooLong)
          else
            var sealed := p.aeadSeal(p.hkdf(WrapKeyInput(shared, aad)), nonce, Inner(meta, content), aad);
            Ok(Framed(route) + (ciphertext + nonce + sealed))
  }

  /** The encryption that SealRouted performs. */
  function RouteCall(p: Primitives, metadata: Json, content: bytes, public: bytes, header: Json,
                     coins: Coins, nonce: bytes): AeadCall
    requires SealRouted(p, metadata, content, public, header, coins, nonce).Ok?
  {
    var aad := Aad(Dumps(header));
    var shared := HybridEncap(p, public, coins, HKDF_INFO).value.1;
    AeadCall(p.hkdf(WrapKeyInput(shared, aad)), nonce, Inner(Dumps(metadata), content), aad)
  }

  // ---- relay ----

  function ReadRouteHeader(blob: bytes): Result<Json, RouteError> {
    match SplitOuter(blob)
    case Err(e) => Err(e)
    case Ok((route, _)) =>
      match Loads(route)
      case None => Err(Malformed)
      case Some(header) => Ok(header)
  }

  function ReplaceRouteHeader(blob: bytes, header: Json): Result<bytes, RouteError> {
    match SplitOuter(blob)
    case Err(e) => Err(e)
    case Ok((_, sealed)) =>
      var route := Dumps(header);
      if |route| >= TWO32 then Err(TooLong) else Ok(Framed(route) + sealed)
  }

  // ---- open ----

  function OpenRouted(p: Primitives, blob: bytes, private: bytes): Result<(Json, Json, bytes), RouteError> {
    match SplitOuter(blob)
    case Err(e) => Err(e)
    case Ok((route, sealed)) =>
      if |sealed| < SEALED_MIN_LEN then Err(Malformed)
      else match Loads(route)
        case None => Err(Malformed)
        case Some(header) =>
          var ciphertext := sealed[..CIPHERTEXT_LEN];
          var nonce := sealed[CIPHERTEXT_LEN..CIPHERTEXT_LEN + NONCE_LEN];
          var body := sealed[CIPHERTEXT_LEN + NONCE_LEN..];
          match OpenInner(p, ciphertext, nonce, body, private, Aad(route))
          case Err(e) => Err(e)
          case Ok((metadata, content)) => Ok((header, metadata, content))
  }

  function OpenInner(p: Primitives, ciphertext: bytes, nonce: bytes, body: bytes, private: bytes, aad: bytes)
    : Result<(Json, bytes), RouteError>
  {
    match HybridDecap(p, ciphertext, private, HKDF_INFO)
    case Err(_) => Err(OpenFailed)
    case Ok(shared) =>
      match p.aeadOpen(p.hkdf(WrapKeyInput(shared, aad)), nonce, body, aad)
      case None => Err(OpenFailed)
      case Some(inner) =>
        match Unframe(inner)
        case None => Err(OpenFailed)
        case Some((meta, content)) =>
          match Loads(meta)
          case None => Err(OpenFailed)
          case Some(metadata) => Ok((metadata, content))
  }

  // ---- when sealing succeeds, and what it writes ----

  /** When sealing succeeds, and the error of each refusal. */
  lemma SealRoutedAccepts(p: Primitives, metadata: Json, content: bytes, public: bytes, header: Json,
                          coins: Coins, nonce: bytes)
    ensures var r := SealRouted(p, metadata, content, public, header, coins, nonce);
      var kem := HybridEncap(p, public, coins, HKDF_INFO);
      var fits := |Dumps(metadata)| < TWO32;
      && (r.Ok? <==> |Dumps(header)| < TWO32 && fits && kem.Ok?)
      && (r == Err(Malformed) <==> |public| != 1216 || (fits && kem == Err(Format)))
      && (r == Err(KeyExchange) <==> fits && kem == Err(Exchange))
      && (r == Err(TooLong) <==> |public| == 1216 && (!fits || (kem.Ok? && |Dumps(header)| >= TWO32)))
  {
    EncapAccepts(p, public, coins, HKDF_INFO);
    hide HybridEncap, Dumps, WrapKeyInput, Aad;
  }

  /** The associated data and the label of the wrap key, literally. */
  lemma AadText(route: bytes)
    ensures Aad(route) == Ascii("pqroute1|") + route
    ensures WrapInfo(Aad(route)) == Ascii("skcomms/pqroute/wrap/v1|") + Aad(route)
  {
    hide Aad;
    AadHead(route);
    assert Ascii("skcomms/pqroute/wrap/v1") + [PIPE] == Ascii("skcomms/pqroute/wrap/v1|");
  }

  lemma AadHead(route: bytes)
    ensures Aad(route) == Ascii("pqroute1|") + route
  {
    assert Ascii("pqroute1") + [PIPE] == Ascii("pqroute1|");
  }

  /** An envelope, part by part. */
  lemma RoutedLayout(p: Primitives, metadata: Json, content: bytes, public: bytes, header: Json,
                     coins: Coins, nonce: bytes)
    requires Lawful(p) && |nonce| == NONCE_LEN
    requires SealRouted(p, metadata, content, public, header, coins, nonce).Ok?
    ensures HybridEncap(p, public, coins, HKDF_INFO).Ok? && |Dumps(metadata)| < TWO32
    ensures var blob := SealRouted(p, metadata, content, public, header, coins, nonce).value;
      var (ciphertext, shared) := HybridEncap(p, public, coins, HKDF_INFO).value;
      var route, meta := Dumps(header), Dumps(metadata);
      var aad := Aad(route);
      var n := 4 + |route|;
      && |blob| >= n + 1132 && FromBigEndian(blob[..4]) == |route| && blob[4..n] == route
      && blob[n..n + 1120] == ciphertext && blob[n + 1120..n + 1132] == nonce
      && blob[n + 1132..]
         == p.aeadSeal(p.hkdf(KdfInput(shared, [], WrapInfo(aad))), nonce, U32(|meta|) + meta + content, aad)
  {
    hide Dumps, HybridEncap, WrapInfo, Aad, U32, FromBigEndian;
    SealRoutedFacts(p, metadata, content, public, header, coins, nonce);
    EncapLayout(p, public, coins, HKDF_INFO);
    var (ciphertext, shared) := HybridEncap(p, public, coins, HKDF_INFO).value;
    var route := Dumps(header);
    U32RoundTrip(|route|);
    var ct := p.aeadSeal(p.hkdf(WrapKeyInput(shared, Aad(route))), nonce, Inner(Dumps(metadata), content), Aad(route));
    var blob := SealRouted(p, metadata, content, public, header, coins, nonce).value;
    assert blob == U32(|route|) + route + (ciphertext + nonce + ct);
    EnvelopeParts(U32(|route|), route, ciphertext, nonce, ct);
  }

  lemma EnvelopeParts(prefix: bytes, route: bytes, x: bytes, nonce: bytes, ct: bytes)
    requires |prefix| == 4 && |x| == 1120 && |nonce| == 12
    ensures var b := prefix + route + (x + nonce + ct);
      var n := 4 + |route|;
      && b[..4] == prefix && b[4..n] == route && b[n..n + 1120] == x && b[n + 1120..n + 1132] == nonce
      && b[n + 1132..] == ct
  {
  }

  /** What a relay makes of any blob that has a header, and that it refuses all others. */
  lemma RelayExact(blob: bytes, part: bytes, rest: bytes, header: Json)
    ensures |part| < TWO32 && blob == U32(|part|) + part + rest ==>
              && ReadRouteHeader(blob) == (match Loads(part) case None => Err(Malformed) case Some(h) => Ok(h))
              && ReplaceRouteHeader(blob, header)
                 == if |Dumps(header)| < TWO32 then Ok(U32(|Dumps(header)|) + Dumps(header) + rest) else Err(TooLong)
    ensures |blob| < 4 || FromBigEndian(blob[..4]) > |blob| - 4 ==>
              && ReadRouteHeader(blob) == Err(Malformed) && ReplaceRouteHeader(blob, header) == Err(Malformed)
              && forall p, private :: OpenRouted(p, blob, private) == Err(Malformed)
  {
    hide Dumps, Loads, U32, FromBigEndian;
    FramingExact(blob, part, rest);
  }

  // ---- results ----

  /** How a sealed blob splits, and what opening one with another header in front comes to. */
  lemma SplitSealed(p: Primitives, metadata: Json, content: bytes, public: bytes, header: Json,
                    coins: Coins, nonce: bytes) returns (sealed: bytes)
    requires SealRouted(p, metadata, content, public, header, coins, nonce).Ok?
    ensures |Dumps(header)| < TWO32
    ensures SealRouted(p, metadata, content, public, header, coins, nonce).value == U32(|Dumps(header)|) + Dumps(header) + sealed
    ensures SplitOuter(SealRouted(p, metadata, content, public, header, coins, nonce).value) == Ok((Dumps(header), sealed))
    ensures sealed == HybridEncap(p, public, coins, HKDF_INFO).value.0 + nonce
                      + Ciphertext(p, RouteCall(p, metadata, content, public, header, coins, nonce))
  {
    hide Dumps, HybridEncap, WrapKeyInput, Aad, Inner, Unframe;
    var route := Dumps(header);
    sealed := HybridEncap(p, public, coins, HKDF_INFO).value.0 + nonce
      + Ciphertext(p, RouteCall(p, metadata, content, public, header, coins, nonce));
    var blob := SealRouted(p, metadata, content, public, header, coins, nonce).value;
    assert blob == U32(|route|) + route + sealed;
    FramingExact(blob, route, sealed);
  }

  /** Opening a sealed inner part behind any route header comes down to one AEAD call. */
  lemma OpenSealedInner(p: Primitives, metadata: Json, content: bytes, public: bytes, private: bytes, header: Json,
                        coins: Coins, nonce: bytes, blob': bytes, route': bytes)
    requires Lawful(p) && |nonce| == NONCE_LEN && IsKeyPair(p, public, private)
    requires SealRouted(p, metadata, content, public, header, coins, nonce).Ok?
    requires var sealed := SplitOuter(SealRouted(p, metadata, content, public, header, coins, nonce).value);
      sealed.Ok? && SplitOuter(blob') == Ok((route', sealed.value.1))
    ensures var call := RouteCall(p, metadata, content, public, header, coins, nonce);
      var shared := HybridEncap(p, public, coins, HKDF_INFO).value.1;
      && |call.key| == SECRET_LEN
      && (Loads(route') == None ==> OpenRouted(p, blob', private) == Err(Malformed))
      && (Loads(route').Some? ==>
           var r := p.aeadOpen(p.hkdf(WrapKeyInput(shared, Aad(route'))), nonce, Ciphertext(p, call), Aad(route'));
           && (r == None ==> OpenRouted(p, blob', private) == Err(OpenFailed))
           && (r == Some(Inner(Dumps(metadata), content)) && WellFormed(metadata) ==>
                 OpenRouted(p, blob', private) == Ok((Loads(route').value, PairJson(metadata), content))))
  {
    hide Dumps, Loads, HybridEncap, HybridDecap, WrapKeyInput, Aad, Unframe, IsKeyPair, SealRouted, WellFormed, PairJson,
         SplitOuter;
    var call := RouteCall(p, metadata, content, public, header, coins, nonce);
    var sealed := SplitSealed(p, metadata, content, public, header, coins, nonce);
    SealRoutedFacts(p, metadata, content, public, header, coins, nonce);
    var (ciphertext, shared) := HybridEncap(p, public, coins, HKDF_INFO).value;
    EncapLayout(p, public, coins, HKDF_INFO);
    DecapInvertsEncap(p, public, private, coins, HKDF_INFO);
    assert sealed[..CIPHERTEXT_LEN] == ciphertext;
    assert sealed[CIPHERTEXT_LEN..CIPHERTEXT_LEN + NONCE_LEN] == nonce;
    assert sealed[CIPHERTEXT_LEN + NONCE_LEN..] == Ciphertext(p, call);
    var meta := Dumps(metadata);
    FramingExact(Inner(meta, content), meta, content);
    if WellFormed(metadata) {
      LoadsDumps(metadata);
    }
  }

  lemma SealRoutedFacts(p: Primitives, metadata: Json, content: bytes, public: bytes, header: Json,
                        coins: Coins, nonce: bytes)
    requires SealRouted(p, metadata, content, public, header, coins, nonce).Ok?
    ensures HybridEncap(p, public, coins, HKDF_INFO).Ok? && |Dumps(metadata)| < TWO32
  {
  }

  /** Round trip, and what any other header leads to. Behind the header it was sealed with, the envelope
      opens to its header, metadata and content. Behind any other bytes at all in the place of the
      header it opens to nothing, unless the AEAD accepts its ciphertext with those bytes and the key
      derived from them. */
  lemma RoutedOpensOnlyAsSealed(p: Primitives, metadata: Json, content: bytes, public: bytes, private: bytes, header: Json,
                                coins: Coins, nonce: bytes, blob': bytes, route': bytes)
    requires Lawful(p) && |nonce| == NONCE_LEN && IsKeyPair(p, public, private)
    requires SealRouted(p, metadata, content, public, header, coins, nonce).Ok?
    requires var sealed := SplitOuter(SealRouted(p, metadata, content, public, header, coins, nonce).value);
      sealed.Ok? && SplitOuter(blob') == Ok((route', sealed.value.1))
    ensures var shared := HybridEncap(p, public, coins, HKDF_INFO).value.1;
      var r := OpenRouted(p, blob', private);
      if route' == Dumps(header)
      then WellFormed(header) && WellFormed(metadata) ==> r == Ok((PairJson(header), PairJson(metadata), content))
      else r == Err(if Loads(route') == None then Malformed else OpenFailed)
           || OpensForeign(p, RouteCall(p, metadata, content, public, header, coins, nonce),
                           p.hkdf(WrapKeyInput(shared, Aad(route'))), Aad(route'))
  {
    hide Dumps, Loads, HybridEncap, WrapKeyInput, Aad, IsKeyPair, SealRouted, WellFormed, PairJson, Inner, OpenRouted,
         SplitOuter;
    SealRoutedFacts(p, metadata, content, public, header, coins, nonce);
    OpenSealedInner(p, metadata, content, public, private, header, coins, nonce, blob', route');
    if WellFormed(header) {
      LoadsDumps(header);
    }
    AadInjective(Dumps(header), route');
    RouteCallOpens(p, metadata, content, public, header, coins, nonce);
  }

  // ---- tampering ----

  /** Opening any blob that is long enough comes down to the KEM and one AEAD call. */
  lemma OpenByBox(p: Primitives, blob: bytes, private: bytes, route: bytes, sealed: bytes)
    requires SplitOuter(blob) == Ok((route, sealed)) && |sealed| >= SEALED_MIN_LEN && Loads(route).Some?
    ensures var r := BoxOpen(p, sealed[..CIPHERTEXT_LEN], private, WrapInfo(Aad(route)),
                             sealed[CIPHERTEXT_LEN..CIPHERTEXT_LEN + NONCE_LEN], sealed[CIPHERTEXT_LEN + NONCE_LEN..],
                             Aad(route));
      && (r == None ==> OpenRouted(p, blob, private) == Err(OpenFailed))
      && (r.Some? ==> OpenRouted(p, blob, private)
                      == match ParseInner(r.value)
                         case None => Err(OpenFailed)
                         case Some((metadata, content)) => Ok((Loads(route).value, metadata, content)))
  {
    hide Loads, Unframe, HybridDecap, WrapInfo, Aad;
  }

  /** Reading a decrypted inner part. */
  function ParseInner(inner: bytes): Option<(Json, bytes)> {
    match Unframe(inner)
    case None => None
    case Some((meta, content)) =>
      match Loads(meta)
      case None => None
      case Some(metadata) => Some((metadata, content))
  }

  lemma ParseSealedInner(metadata: Json, content: bytes)
    requires |Dumps(metadata)| < TWO32 && WellFormed(metadata)
    ensures ParseInner(Inner(Dumps(metadata), content)) == Some((PairJson(metadata), content))
  {
    hide Dumps, Loads, Unframe, WellFormed, PairJson;
    var meta := Dumps(metadata);
    FramingExact(Inner(meta, content), meta, content);
    LoadsDumps(metadata);
  }

  /** The parts of a sealed blob, and the key behind its KEM ciphertext. */
  lemma SealedParts(p: Primitives, metadata: Json, content: bytes, public: bytes, private: bytes, header: Json,
                    coins: Coins, nonce: bytes) returns (sealed: bytes)
    requires Lawful(p) && |nonce| == NONCE_LEN && IsKeyPair(p, public, private)
    requires SealRouted(p, metadata, content, public, header, coins, nonce).Ok?
    ensures SplitOuter(SealRouted(p, metadata, content, public, header, coins, nonce).value) == Ok((Dumps(header), sealed))
    ensures HybridEncap(p, public, coins, HKDF_INFO).Ok? && |Dumps(metadata)| < TWO32 && |Dumps(header)| < TWO32
    ensures var call := RouteCall(p, metadata, content, public, header, coins, nonce);
      var x := HybridEncap(p, public, coins, HKDF_INFO).value.0;
      && |x| == CIPHERTEXT_LEN && |sealed| >= SEALED_MIN_LEN
      && sealed == x + nonce + Ciphertext(p, call)
      && sealed[..CIPHERTEXT_LEN] == x && sealed[CIPHERTEXT_LEN..] == nonce + Ciphertext(p, call)
      && call.nonce == nonce && call.aad == Aad(Dumps(header)) && call.plaintext == Inner(Dumps(metadata), content)
      && BoxKey(p, x, private, WrapInfo(call.aad)) == Some(call.key)
  {
    hide Dumps, HybridEncap, HybridDecap, WrapInfo, Aad, IsKeyPair, SealRouted, Inner, SplitOuter;
    var call := RouteCall(p, metadata, content, public, header, coins, nonce);
    sealed := SplitSealed(p, metadata, content, public, header, coins, nonce);
    SealRoutedFacts(p, metadata, content, public, header, coins, nonce);
    RouteCallOpens(p, metadata, content, public, header, coins, nonce);
    EncapLayout(p, public, coins, HKDF_INFO);
    DecapInvertsEncap(p, public, private, coins, HKDF_INFO);
    var x := HybridEncap(p, public, coins, HKDF_INFO).value.0;
    assert sealed[..CIPHERTEXT_LEN] == x && sealed[CIPHERTEXT_LEN..] == nonce + Ciphertext(p, call);
    assert |call.key| == SECRET_LEN;
  }

  lemma TooShort(p: Primitives, blob: bytes, private: bytes)
    ensures SplitOuter(blob).Err? ==> OpenRouted(p, blob, private) == Err(Malformed)
    ensures SplitOuter(blob).Ok? && (|SplitOuter(blob).value.1| < SEALED_MIN_LEN || Loads(SplitOuter(blob).value.0) == None) ==>
              OpenRouted(p, blob, private) == Err(Malformed)
  {
    hide Loads, Unframe, OpenInner;
  }

  /** The outcome of opening any byte string, told against what was sealed. Header, metadata and content
      come out exactly where the header has its canonical bytes and the sealed nonce and AEAD ciphertext
      stand behind a KEM ciphertext for the same key; everything else is refused, or the AEAD has accepted
      what was never sealed. */
  lemma RoutedOpensExactly(p: Primitives, metadata: Json, content: bytes, public: bytes, private: bytes, header: Json,
                           coins: Coins, nonce: bytes, blob': bytes)
    requires Lawful(p) && |nonce| == NONCE_LEN && IsKeyPair(p, public, private)
    requires SealRouted(p, metadata, content, public, header, coins, nonce).Ok?
    requires WellFormed(header) && WellFormed(metadata)
    ensures HybridEncap(p, public, coins, HKDF_INFO).Ok?
    ensures var call := RouteCall(p, metadata, content, public, header, coins, nonce);
      var x := HybridEncap(p, public, coins, HKDF_INFO).value.0;
      var r := OpenRouted(p, blob', private);
      match SplitOuter(blob')
      case Err(_) => r == Err(Malformed)
      case Ok((route', sealed')) =>
        if |sealed'| < SEALED_MIN_LEN || Loads(route') == None then r == Err(Malformed)
        else
          var x' := sealed'[..CIPHERTEXT_LEN];
          match BoxKey(p, x', private, WrapInfo(Aad(route')))
          case None => r == Err(OpenFailed)
          case Some(key') =>
            if && route' == Dumps(header) && sealed'[CIPHERTEXT_LEN..] == nonce + Ciphertext(p, call)
               && OneKey(p, x, x', private, WrapInfo(call.aad))
            then r == Ok((PairJson(header), PairJson(metadata), content))
            else r == Err(OpenFailed)
                 || AcceptsUnsealed(p, call, key', sealed'[CIPHERTEXT_LEN..CIPHERTEXT_LEN + NONCE_LEN],
                                    sealed'[CIPHERTEXT_LEN + NONCE_LEN..], Aad(route'))
  {
    hide Dumps, Loads, HybridEncap, HybridDecap, WrapInfo, Aad, IsKeyPair, SealRouted, RouteCall, WellFormed, PairJson, Inner,
         OpenRouted, SplitOuter, OneKey, ParseInner;
    var sealed := SealedParts(p, metadata, content, public, private, header, coins, nonce);
    var call := RouteCall(p, metadata, content, public, header, coins, nonce);
    TooShort(p, blob', private);
    if SplitOuter(blob').Ok? {
      var (route', sealed') := SplitOuter(blob').value;
      if |sealed'| >= SEALED_MIN_LEN && Loads(route').Some? {
        var nonce', ct' := sealed'[CIPHERTEXT_LEN..CIPHERTEXT_LEN + NONCE_LEN], sealed'[CIPHERTEXT_LEN + NONCE_LEN..];
        OpenByBox(p, blob', private, route', sealed');
        AadInjective(Dumps(header), route');
        BoxOpensExactly(p, sealed[..CIPHERTEXT_LEN], private, WrapInfo(call.aad), call,
                        sealed'[..CIPHERTEXT_LEN], WrapInfo(Aad(route')), nonce', ct', Aad(route'));
        SplitTail(sealed'[CIPHERTEXT_LEN..], nonce, Ciphertext(p, call));
        assert sealed'[CIPHERTEXT_LEN..][..NONCE_LEN] == nonce' && sealed'[CIPHERTEXT_LEN..][NONCE_LEN..] == ct';
        ParseSealedInner(metadata, content);
        LoadsDumps(header);
      }
    }
  }

  /** A sealed blob with another KEM ciphertext and nothing else changed. */
  function Swapped(header: Json, x: bytes, rest: bytes): bytes
    requires |Dumps(header)| < TWO32
  {
    Framed(Dumps(header)) + (x + rest)
  }

  /** Refused by the KEM it does not open, with the same leg secrets it opens to what was sealed, and with
      other leg secrets it does not open, unless HKDF collides or the AEAD accepts the ciphertext under a
      second key. */
  lemma RoutedSwapExactly(p: Primitives, metadata: Json, content: bytes, public: bytes, private: bytes, header: Json,
                          coins: Coins, nonce: bytes, x': bytes)
    requires Lawful(p) && |nonce| == NONCE_LEN && IsKeyPair(p, public, private)
    requires SealRouted(p, metadata, content, public, header, coins, nonce).Ok?
    requires WellFormed(header) && WellFormed(metadata) && |x'| == CIPHERTEXT_LEN
    ensures HybridEncap(p, public, coins, HKDF_INFO).Ok? && |Dumps(header)| < TWO32
    ensures var call := RouteCall(p, metadata, content, public, header, coins, nonce);
      var x := HybridEncap(p, public, coins, HKDF_INFO).value.0;
      var info := WrapInfo(call.aad);
      var r := OpenRouted(p, Swapped(header, x', nonce + Ciphertext(p, call)), private);
      && (DecapLegs(p, x', private).Err? ==> r == Err(OpenFailed))
      && (OneKey(p, x, x', private, info) ==> r == Ok((PairJson(header), PairJson(metadata), content)))
      && (DecapLegs(p, x', private).Ok? && !OneKey(p, x, x', private, info) ==>
            BoxKey(p, x', private, info).Some?
            && (r == Err(OpenFailed) || CrossKeyOpen(p, call, BoxKey(p, x', private, info).value)))
      && (x' == x ==> OneKey(p, x, x', private, info) && Swapped(header, x', nonce + Ciphertext(p, call))
                      == SealRouted(p, metadata, content, public, header, coins, nonce).value)
  {
    hide Dumps, Loads, HybridEncap, HybridDecap, DecapLegs, WrapInfo, Aad, IsKeyPair, SealRouted, RouteCall, WellFormed, PairJson,
         Inner, OpenRouted, OneKey, Unframe;
    var sealed := SealedParts(p, metadata, content, public, private, header, coins, nonce);
    var call := RouteCall(p, metadata, content, public, header, coins, nonce);
    var x := HybridEncap(p, public, coins, HKDF_INFO).value.0;
    var tail := nonce + Ciphertext(p, call);
    var blob' := Swapped(header, x', tail);
    FramingExact(blob', Dumps(header), x' + tail);
    FramingExact(SealRouted(p, metadata, content, public, header, coins, nonce).value, Dumps(header), sealed);
    assert (x' + tail)[..CIPHERTEXT_LEN] == x' && (x' + tail)[CIPHERTEXT_LEN..] == tail;
    SplitTail(tail, nonce, Ciphertext(p, call));
    assert (x' + tail)[CIPHERTEXT_LEN..CIPHERTEXT_LEN + NONCE_LEN] == tail[..NONCE_LEN];
    assert (x' + tail)[CIPHERTEXT_LEN + NONCE_LEN..] == tail[NONCE_LEN..];
    assert x + nonce + Ciphertext(p, call) == x + tail;
    LoadsDumps(header);
    KemRefusal(p, x', private);
    KemRefusal(p, x, private);
    OneKeyExact(p, x, x', private, WrapInfo(call.aad));
    RoutedOpensExactly(p, metadata, content, public, private, header, coins, nonce, blob');
  }

  /** Not every tampered blob is refused: with the top bit of its X25519 share flipped it still opens, to the
      same header, metadata and content. */
  lemma FlippedRouteOpens(p: Primitives, metadata: Json, content: bytes, public: bytes, private: bytes, header: Json,
                          coins: Coins, nonce: bytes) returns (blob': bytes)
    requires Lawful(p) && MasksTopBit(p) && |nonce| == NONCE_LEN && IsKeyPair(p, public, private)
    requires SealRouted(p, metadata, content, public, header, coins, nonce).Ok?
    requires WellFormed(header) && WellFormed(metadata)
    ensures HybridEncap(p, public, coins, HKDF_INFO).Ok? && |HybridEncap(p, public, coins, HKDF_INFO).value.0| >= 32
    ensures |Dumps(header)| < TWO32
    ensures var call := RouteCall(p, metadata, content, public, header, coins, nonce);
      blob' == Swapped(header, FlipTopBit(HybridEncap(p, public, coins, HKDF_INFO).value.0), nonce + Ciphertext(p, call))
    ensures blob' != SealRouted(p, metadata, content, public, header, coins, nonce).value
    ensures OpenRouted(p, blob', private) == Ok((PairJson(header), PairJson(metadata), content))
  {
    hide Dumps, Loads, HybridEncap, HybridDecap, DecapLegs, WrapInfo, Aad, IsKeyPair, SealRouted, RouteCall, WellFormed, PairJson,
         Inner, OpenRouted, OneKey, Unframe;
    var sealed := SealedParts(p, metadata, content, public, private, header, coins, nonce);
    var call := RouteCall(p, metadata, content, public, header, coins, nonce);
    var x := HybridEncap(p, public, coins, HKDF_INFO).value.0;
    var x' := FlipTopBit(x);
    var tail := nonce + Ciphertext(p, call);
    blob' := Swapped(header, x', tail);
    KemRefusal(p, x, private);
    FlippedOneKey(p, x, private, WrapInfo(call.aad));
    RoutedSwapExactly(p, metadata, content, public, private, header, coins, nonce, x');
    FramingExact(blob', Dumps(header), x' + tail);
    assert (x' + tail)[..CIPHERTEXT_LEN] == x';
  }

  lemma AadInjective(route: bytes, route': bytes)
    ensures Aad(route) == Aad(route') <==> route == route'
  {
    assert Aad(route)[|ROUTE_SUITE| + 1..] == route && Aad(route')[|ROUTE_SUITE| + 1..] == route';
  }

  lemma RouteCallOpens(p: Primitives, metadata: Json, content: bytes, public: bytes, header: Json,
                       coins: Coins, nonce: bytes)
    requires Lawful(p) && |nonce| == NONCE_LEN
    requires SealRouted(p, metadata, content, public, header, coins, nonce).Ok?
    ensures var call := RouteCall(p, metadata, content, public, header, coins, nonce);
      var shared := HybridEncap(p, public, coins, HKDF_INFO).value.1;
      && call.key == p.hkdf(WrapKeyInput(shared, Aad(Dumps(header)))) && call.aad == Aad(Dumps(header))
      && |Dumps(metadata)| < TWO32
      && p.aeadOpen(call.key, nonce, Ciphertext(p, call), call.aad) == Some(Inner(Dumps(metadata), content))
  {
    hide Dumps, HybridEncap, WrapKeyInput, Aad, Inner;
  }

  /** Round trip for dicts that JSON keeps as they are. */
  lemma RoutedRoundTrip(p: Primitives, metadata: Json, content: bytes, public: bytes, private: bytes, header: Json,
                        coins: Coins, nonce: bytes)
    requires Lawful(p) && |nonce| == NONCE_LEN && IsKeyPair(p, public, private)
    requires SealRouted(p, metadata, content, public, header, coins, nonce).Ok?
    requires JsonNormal(header) && JsonNormal(metadata)
    ensures var blob := SealRouted(p, metadata, content, public, header, coins, nonce).value;
      && OpenRouted(p, blob, private) == Ok((header, metadata, content))
      && ReadRouteHeader(blob) == Ok(header)
  {
    hide Dumps, Loads, IsKeyPair, SealRouted, OpenRouted, Unframe, JsonNormal, WellFormed, PairJson;
    var blob := SealRouted(p, metadata, content, public, header, coins, nonce).value;
    var sealed := SplitSealed(p, metadata, content, public, header, coins, nonce);
    NormalIsPlain(header);
    NormalIsPlain(metadata);
    RoutedOpensOnlyAsSealed(p, metadata, content, public, private, header, coins, nonce, blob, Dumps(header));
    NormalExact(header);
    NormalExact(metadata);
    LoadsDumps(header);
  }

  /** Whatever the destination accepts, the relay has read the same header from. */
  lemma RelayAgrees(p: Primitives, blob: bytes, private: bytes)
    requires OpenRouted(p, blob, private).Ok?
    ensures ReadRouteHeader(blob) == Ok(OpenRouted(p, blob, private).value.0)
  {
    hide Loads, OpenInner, Unframe;
  }

  /** Replacing the header of any blob that has one: it reads back, the sealed part is untouched, the
      last replacement wins, and the blob is restored, byte for byte, by exactly the headers whose
      canonical form it carried. */
  lemma ReplaceLaws(blob: bytes, first: Json, second: Json)
    requires SplitOuter(blob).Ok? && |Dumps(first)| < TWO32
    ensures var (route, sealed) := SplitOuter(blob).value;
      var once := ReplaceRouteHeader(blob, first);
      && once.Ok?
      && SplitOuter(once.value) == Ok((Dumps(first), sealed))
      && (WellFormed(first) ==> ReadRouteHeader(once.value) == Ok(PairJson(first)))
      && ReplaceRouteHeader(once.value, second) == ReplaceRouteHeader(blob, second)
      && (ReplaceRouteHeader(once.value, second) == Ok(blob) <==> Dumps(second) == route)
  {
    hide Dumps, Loads, WellFormed, PairJson, Unframe;
    var (route, sealed) := SplitOuter(blob).value;
    FramingExact(blob, route, sealed);
    FramingExact(Framed(Dumps(first)) + sealed, Dumps(first), sealed);
    if |Dumps(second)| < TWO32 {
      FramingExact(Framed(Dumps(second)) + sealed, Dumps(second), sealed);
    }
    if WellFormed(first) {
      LoadsDumps(first);
    }
  }

  /** A relay that writes back the header it has read leaves a sealed blob exactly as it was if and only if
      joining surrogate pairs neither merges keys of the header nor changes their order. */
  lemma RewritingWhatWasRead(p: Primitives, metadata: Json, content: bytes, public: bytes, header: Json,
                             coins: Coins, nonce: bytes)
    requires SealRouted(p, metadata, content, public, header, coins, nonce).Ok? && WellFormed(header)
    ensures var blob := SealRouted(p, metadata, content, public, header, coins, nonce).value;
      && ReadRouteHeader(blob).Ok?
      && (ReplaceRouteHeader(blob, ReadRouteHeader(blob).value) == Ok(blob) <==> KeepsOrder(header))
  {
    hide Dumps, Loads, SealRouted, KeepsOrder, WellFormed, PairJson, Unframe;
    var blob := SealRouted(p, metadata, content, public, header, coins, nonce).value;
    var sealed := SplitSealed(p, metadata, content, public, header, coins, nonce);
    LoadsDumps(header);
    PairingShows(header);
    var route' := Dumps(PairJson(header));
    FramingExact(blob, Dumps(header), sealed);
    if |route'| < TWO32 {
      FramingExact(Framed(route') + sealed, route', sealed);
    }
  }

  /** A relay chain: each hop replaces the header. */
  function ReplaceChain(blob: bytes, headers: seq<Json>): Result<bytes, RouteError>
    decreases |headers|
  {
    if headers == [] then Ok(blob)
    else match ReplaceRouteHeader(blob, headers[0])
      case Err(e) => Err(e)
      case Ok(next) => ReplaceChain(next, headers[1..])
  }

  /** After any number of hops only the last replacement is left. */
  lemma {:induction false} LastReplacementWins(blob: bytes, headers: seq<Json>)
    requires SplitOuter(blob).Ok? && headers != [] && forall h :: h in headers ==> |Dumps(h)| < TWO32
    ensures ReplaceChain(blob, headers) == ReplaceRouteHeader(blob, headers[|headers| - 1])
    decreases |headers|
  {
    hide Dumps, ReplaceRouteHeader, SplitOuter;
    var last := headers[|headers| - 1];
    assert headers[0] in headers;
    ReplaceLaws(blob, headers[0], last);
    if |headers| > 1 {
      LastReplacementWins(ReplaceRouteHeader(blob, headers[0]).value, headers[1..]);
    }
  }
}
