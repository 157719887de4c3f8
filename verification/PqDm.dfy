/** Hybrid sealing of one body to one recipient, with the negotiated suite locked into the AAD. */
module PqDm {
  import opened Basics
  import opened Crypto
  import opened Json
  import opened JsonCanonical
  import opened JsonRoundTrip
  import opened JsonText
  import opened Ordering
  import opened KemBox
  import opened PqKem
  import Hex
  import Utf8

  const HYBRID_SUITE: text := Ascii("x25519-mlkem768")
  const CLASSICAL_SUITE: text := Ascii("x25519-pgp-wrap-v1")
  const INFO_WRAP: bytes := Ascii("skcomms/pqdm/wrap/v1")
  const PIPE: ascii := '|' as int
  const SEALED_MIN_LEN: nat := CIPHERTEXT_LEN + NONCE_LEN + TAG_LEN

  /** PqDmFormatError, an error of the KEM, or DowngradeDetected. */
  datatype DmError = Malformed | Kem(error: KemError) | DowngradeDetected

  // ---- prekey bundle and negotiation ----

  datatype PrekeyBundle = PrekeyBundle(suite: text, hybridPublicHex: text)
  {
    predicate IsHybrid() {
      suite == HYBRID_SUITE && hybridPublicHex != []
    }

    function HybridPublic(): Result<bytes, DmError> {
      if hybridPublicHex == [] then Err(Malformed)
      else match Hex.FromHex(hybridPublicHex)
        case None => Err(Malformed)
        case Some(public) => if |public| == PUBLIC_KEY_LEN then Ok(public) else Err(Malformed)
    }
  }

  function NegotiateSuite(localSupportsHybrid: bool, bundle: PrekeyBundle): text {
    if localSupportsHybrid && bundle.IsHybrid() then HYBRID_SUITE else CLASSICAL_SUITE
  }

  // ---- the downgrade lock ----

  /** What the AAD binds: the negotiated suite and the two parties. */
  datatype Transcript = Transcript(suite: text, sender: text, recipient: text)
  {
    function Record(): Json {
      Obj(Dict([
        (Ascii("v"), Int(1)),
        (Ascii("negotiated_suite"), Str(suite)),
        (Ascii("sender"), Str(sender)),
        (Ascii("recipient"), Str(recipient))
      ]))
    }

    /** The transcript with surrogate pairs joined. */
    function Paired(): Transcript {
      Transcript(Pair(suite), Pair(sender), Pair(recipient))
    }

    ghost predicate IsScalar() {
      Utf8.IsScalarText(suite) && Utf8.IsScalarText(sender) && Utf8.IsScalarText(recipient)
    }
  }

  function Extra(extra: Option<bytes>): bytes {
    if extra.Some? then extra.value else []
  }

  /** `downgrade_lock_aad` */
  function DowngradeLockAad(t: Transcript, extra: Option<bytes>): bytes {
    Dumps(t.Record()) + Extra(extra)
  }

  lemma RecordFields(t: Transcript)
    ensures t.Record() == Obj(map[
        Ascii("v") := Int(1),
        Ascii("negotiated_suite") := Str(t.suite),
        Ascii("sender") := Str(t.sender),
        Ascii("recipient") := Str(t.recipient)])
  {
    hide Dict;
    DictFour((Ascii("v"), Int(1)), (Ascii("negotiated_suite"), Str(t.suite)),
             (Ascii("sender"), Str(t.sender)), (Ascii("recipient"), Str(t.recipient)));
  }

  /** The bytes both sides must agree on, key by key. */
  lemma AadLayout(t: Transcript, extra: Option<bytes>)
    ensures DowngradeLockAad(t, extra)
         == [OPEN_OBJECT]
            + (Member(Ascii("negotiated_suite"), DumpsStr(t.suite)) + [COMMA]
            + (Member(Ascii("recipient"), DumpsStr(t.recipient)) + [COMMA]
            + (Member(Ascii("sender"), DumpsStr(t.sender)) + [COMMA]
            + Member(Ascii("v"), ['1' as int]))))
            + [CLOSE_OBJECT] + Extra(extra)
  {
    hide Dumps, DumpsMembers, DumpsStr, Member, LexLeq, Transcript.Record;
    var n: text, r: text, s: text, w: text := Ascii("negotiated_suite"), Ascii("recipient"), Ascii("sender"), Ascii("v");
    assert n[0] == 'n' as int && r[0] == 'r' as int && s[0] == 's' as int && w[0] == 'v' as int;
    RecordFields(t);
    FourMembers(t.Record(), n, r, s, w);
    DumpsScalars(t.suite);
    DumpsScalars(t.recipient);
    DumpsScalars(t.sender);
  }

  /** The same as plain text, for a suite and parties of printable ASCII without quotes and backslashes. */
  lemma AadText(suite: seq<ascii>, sender: seq<ascii>, recipient: seq<ascii>, extra: Option<bytes>)
    requires IsPlainText(suite) && IsPlainText(sender) && IsPlainText(recipient)
    ensures DowngradeLockAad(Transcript(suite, sender, recipient), extra)
         == Ascii("{\"negotiated_suite\":\"") + suite + Ascii("\",\"recipient\":\"") + recipient
            + Ascii("\",\"sender\":\"") + sender + Ascii("\",\"v\":1}") + Extra(extra)
  {
    hide DowngradeLockAad, DumpsStr;
    AadLayout(Transcript(suite, sender, recipient), extra);
    PlainText(suite);
    PlainText(sender);
    PlainText(recipient);
    PlainText(Ascii("negotiated_suite"));
    PlainText(Ascii("recipient"));
    PlainText(Ascii("sender"));
    PlainText(Ascii("v"));
    QuotedNames(suite, sender, recipient, Extra(extra));
  }

  predicate IsPlainText(s: seq<ascii>) {
    forall i :: 0 <= i < |s| ==> IsPrintable(s[i]) && s[i] != QUOTE && s[i] != BACKSLASH
  }

  lemma QuotedNames(suite: seq<ascii>, sender: seq<ascii>, recipient: seq<ascii>, rest: bytes)
    ensures var q := Ascii("\"");
      [OPEN_OBJECT]
      + (q + Ascii("negotiated_suite") + q + [COLON] + (q + suite + q) + [COMMA]
      + (q + Ascii("recipient") + q + [COLON] + (q + recipient + q) + [COMMA]
      + (q + Ascii("sender") + q + [COLON] + (q + sender + q) + [COMMA]
      + (q + Ascii("v") + q + [COLON] + ['1' as int]))))
      + [CLOSE_OBJECT] + rest
      == Ascii("{\"negotiated_suite\":\"") + suite + Ascii("\",\"recipient\":\"") + recipient
         + Ascii("\",\"sender\":\"") + sender + Ascii("\",\"v\":1}") + rest
  {
    var q := Ascii("\"");
    FirstName();
    MiddleName();
    LastNames();
    hide Ascii;
    Regrouped(q, Ascii("negotiated_suite"), suite, Ascii("recipient"), recipient, Ascii("sender"), sender, Ascii("v"), rest);
  }

  lemma FirstName()
    ensures var q := Ascii("\"");
      Ascii("{\"negotiated_suite\":\"") == [OPEN_OBJECT] + q + Ascii("negotiated_suite") + q + [COLON] + q
  {
  }

  lemma MiddleName()
    ensures var q := Ascii("\"");
      Ascii("\",\"recipient\":\"") == q + [COMMA] + q + Ascii("recipient") + q + [COLON] + q
  {
  }

  lemma LastNames()
    ensures var q := Ascii("\"");
      && Ascii("\",\"sender\":\"") == q + [COMMA] + q + Ascii("sender") + q + [COLON] + q
      && Ascii("\",\"v\":1}") == q + [COMMA] + q + Ascii("v") + q + [COLON] + ['1' as int] + [CLOSE_OBJECT]
  {
  }

  lemma Regrouped(q: bytes, n: bytes, suite: bytes, r: bytes, recipient: bytes, f: bytes, sender: bytes, v: bytes, rest: bytes)
    ensures [OPEN_OBJECT]
         + (q + n + q + [COLON] + (q + suite + q) + [COMMA]
         + (q + r + q + [COLON] + (q + recipient + q) + [COMMA]
         + (q + f + q + [COLON] + (q + sender + q) + [COMMA]
         + (q + v + q + [COLON] + ['1' as int]))))
         + [CLOSE_OBJECT] + rest
      == ([OPEN_OBJECT] + q + n + q + [COLON] + q) + suite + (q + [COMMA] + q + r + q + [COLON] + q) + recipient
         + (q + [COMMA] + q + f + q + [COLON] + q) + sender
         + (q + [COMMA] + q + v + q + [COLON] + ['1' as int] + [CLOSE_OBJECT]) + rest
  {
    var e := q + [COMMA];
    OneMember(q, n, suite);
    OneMember(q, r, recipient);
    OneMember(q, f, sender);
    NextName(q, r);
    NextName(q, f);
    var m := q + v + q + [COLON] + ['1' as int];
    assert q + [COMMA] + q + v + q + [COLON] + ['1' as int] + [CLOSE_OBJECT] == e + m + [CLOSE_OBJECT];
    assert [OPEN_OBJECT] + q + n + q + [COLON] + q == [OPEN_OBJECT] + (q + n + q + [COLON] + q);
    Flattened([OPEN_OBJECT], q + n + q + [COLON] + q, suite, q + r + q + [COLON] + q, recipient,
              q + f + q + [COLON] + q, sender, m, e, [CLOSE_OBJECT], rest);
  }

  lemma OneMember(q: bytes, n: bytes, value: bytes)
    ensures q + n + q + [COLON] + (q + value + q) + [COMMA] == (q + n + q + [COLON] + q) + value + (q + [COMMA])
  {
  }

  lemma NextName(q: bytes, n: bytes)
    ensures q + [COMMA] + q + n + q + [COLON] + q == (q + [COMMA]) + (q + n + q + [COLON] + q)
  {
  }

  lemma Flattened(o: bytes, a: bytes, s: bytes, b: bytes, t: bytes, c: bytes, u: bytes, m: bytes, e: bytes, close: bytes, rest: bytes)
    ensures o + (a + s + e + (b + t + e + (c + u + e + m))) + close + rest
         == (o + a) + s + (e + b) + t + (e + c) + u + (e + m + close) + rest
  {
  }

  lemma DumpsScalars(s: text)
    ensures Dumps(Str(s)) == DumpsStr(s) && Dumps(Int(1)) == ['1' as int]
  {
  }

  lemma FourMembers(v: Json, a: text, b: text, c: text, d: text)
    requires a != [] && b != [] && c != [] && d != [] && a[0] < b[0] < c[0] < d[0]
    requires v.Obj? && v.fields.Keys == {a, b, c, d}
    ensures Dumps(v)
         == [OPEN_OBJECT]
            + (Member(a, Dumps(v.fields[a])) + [COMMA]
            + (Member(b, Dumps(v.fields[b])) + [COMMA]
            + (Member(c, Dumps(v.fields[c])) + [COMMA]
            + Member(d, Dumps(v.fields[d])))))
            + [CLOSE_OBJECT]
  {
    hide Member, DumpsMembers, LexLeq, SortedKeys;
    FourKeys(v.fields.Keys, a, b, c, d);
    assert [a, b, c, d] == [a] + [b, c, d] && [b, c, d] == [b] + [c, d] && [c, d] == [c] + [d];
    MembersCons(v, a, [b, c, d]);
    MembersCons(v, b, [c, d]);
    MembersCons(v, c, [d]);
    MembersOne(v, d);
  }

  lemma FourKeys(ks: set<text>, a: text, b: text, c: text, d: text)
    requires a != [] && b != [] && c != [] && d != [] && a[0] < b[0] < c[0] < d[0]
    requires ks == {a, b, c, d}
    ensures SortedKeys(ks) == [a, b, c, d]
  {
    SortedKeysUnique(ks, [a, b, c, d]);
  }

  lemma MembersCons(v: Json, k: text, ks: seq<text>)
    requires v.Obj? && k in v.fields && ks != [] && forall j :: j in ks ==> j in v.fields
    ensures DumpsMembers(v, [k] + ks) == Member(k, Dumps(v.fields[k])) + [COMMA] + DumpsMembers(v, ks)
  {
    hide Member, Dumps;
    assert ([k] + ks)[1..] == ks;
  }

  lemma MembersOne(v: Json, k: text)
    requires v.Obj? && k in v.fields
    ensures DumpsMembers(v, [k]) == Member(k, Dumps(v.fields[k]))
  {
  }

  lemma RecordPaired(t: Transcript)
    ensures t.Record().Obj? && Plain(t.Record())
    ensures PairJson(t.Record()) == t.Paired().Record()
  {
    hide Dict, Pair, WellPaired;
    AsciiWellPaired(Ascii("v"));
    AsciiWellPaired(Ascii("negotiated_suite"));
    AsciiWellPaired(Ascii("sender"));
    AsciiWellPaired(Ascii("recipient"));
    DictPaired([(Ascii("v"), Int(1)), (Ascii("negotiated_suite"), Str(t.suite)),
                (Ascii("sender"), Str(t.sender)), (Ascii("recipient"), Str(t.recipient))],
               [(Ascii("v"), Int(1)), (Ascii("negotiated_suite"), Str(Pair(t.suite))),
                (Ascii("sender"), Str(Pair(t.sender))), (Ascii("recipient"), Str(Pair(t.recipient)))]);
  }

  lemma RecordInjective(t: Transcript, u: Transcript)
    ensures t.Record() == u.Record() <==> t == u
  {
    hide Transcript.Record;
    RecordFields(t);
    RecordFields(u);
    var f, g := t.Record().fields, u.Record().fields;
    assert f[Ascii("negotiated_suite")] == Str(t.suite) && g[Ascii("negotiated_suite")] == Str(u.suite);
    assert f[Ascii("sender")] == Str(t.sender) && g[Ascii("sender")] == Str(u.sender);
    assert f[Ascii("recipient")] == Str(t.recipient) && g[Ascii("recipient")] == Str(u.recipient);
  }

  /** For all strings, and with extra bytes appended: the AAD determines suite, sender, recipient and
      extra, except that it cannot tell a surrogate pair from the character it encodes. */
  lemma AadEqual(t: Transcript, extra: Option<bytes>, u: Transcript, extra': Option<bytes>)
    ensures DowngradeLockAad(t, extra) == DowngradeLockAad(u, extra')
       <==> t.Paired() == u.Paired() && Extra(extra) == Extra(extra')
  {
    hide Dumps, PairJson, Plain, KeepsOrder, WellFormed, Transcript.Paired, Transcript.Record;
    RecordPaired(t);
    RecordPaired(u);
    PlainIsWellFormed(t.Record());
    PlainIsWellFormed(u.Record());
    PlainKeepsOrder(t.Record());
    PlainKeepsOrder(u.Record());
    DumpsSelfDelimiting(t.Record(), u.Record(), Extra(extra), Extra(extra'));
    RecordInjective(t.Paired(), u.Paired());
  }

  lemma PairedIdentity(t: Transcript)
    requires t.IsScalar()
    ensures t.Paired() == t
  {
    PairIdentity(t.suite);
    PairIdentity(t.sender);
    PairIdentity(t.recipient);
  }

  /** On strings without surrogates the lock is exact. */
  lemma AadInjective(t: Transcript, extra: Option<bytes>, u: Transcript, extra': Option<bytes>)
    requires t.IsScalar() && u.IsScalar()
    ensures DowngradeLockAad(t, extra) == DowngradeLockAad(u, extra') <==> t == u && Extra(extra) == Extra(extra')
  {
    hide DowngradeLockAad, Transcript.Paired;
    AadEqual(t, extra, u, extra');
    PairedIdentity(t);
    PairedIdentity(u);
  }

  /** The exception is real: these two senders are different strings with one AAD. */
  lemma AadConfusesSurrogatePair(suite: text, recipient: text, extra: Option<bytes>)
    ensures var pair: text, joined: text := [0xD83D, 0xDE00], [0x1_F600];
      && pair != joined
      && DowngradeLockAad(Transcript(suite, pair, recipient), extra)
         == DowngradeLockAad(Transcript(suite, joined, recipient), extra)
  {
    hide DowngradeLockAad;
    var pair: text, joined: text := [0xD83D, 0xDE00], [0x1_F600];
    assert pair[2..] == [] && joined[1..] == [];
    assert Pair(pair) == joined + [] && Pair(joined) == joined + [];
    AadEqual(Transcript(suite, pair, recipient), extra, Transcript(suite, joined, recipient), extra);
  }

  // ---- seal and open ----

  function WrapInfo(aad: bytes): bytes {
    INFO_WRAP + [PIPE] + aad
  }

  function WrapKeyInput(shared: bytes, aad: bytes): KdfInput {
    KdfInput(shared, [], WrapInfo(aad))
  }

  function Seal(p: Primitives, plaintext: bytes, bundle: PrekeyBundle, sender: text, recipient: text,
                coins: Coins, nonce: bytes): Result<bytes, DmError>
  {
    if !bundle.IsHybrid() then Err(Malformed)
    else match bundle.HybridPublic()
      case Err(e) => Err(e)
      case Ok(public) =>
        var aad := DowngradeLockAad(Transcript(HYBRID_SUITE, sender, recipient), None);
        match HybridEncap(p, public, coins, HKDF_INFO)
        case Err(e) => Err(Kem(e))
        case Ok((ciphertext, shared)) =>
          Ok(ciphertext + nonce + p.aeadSeal(p.hkdf(WrapKeyInput(shared, aad)), nonce, plaintext, aad))
  }

  function OpenSealed(p: Primitives, sealed: bytes, private: bytes, sender: text, recipient: text,
                      expectedSuite: text): Result<bytes, DmError>
  {
    if |sealed| < SEALED_MIN_LEN then Err(Malformed)
    else
      var ciphertext := sealed[..CIPHERTEXT_LEN];
      var nonce := sealed[CIPHERTEXT_LEN..CIPHERTEXT_LEN + NONCE_LEN];
      var body := sealed[CIPHERTEXT_LEN + NONCE_LEN..];
      var aad := DowngradeLockAad(Transcript(expectedSuite, sender, recipient), None);
      match HybridDecap(p, ciphertext, private, HKDF_INFO)
      case Err(e) => Err(Kem(e))
      case Ok(shared) =>
        match p.aeadOpen(p.hkdf(WrapKeyInput(shared, aad)), nonce, body, aad)
        case None => Err(DowngradeDetected)
        case Some(plaintext) => Ok(plaintext)
  }

  /** The encryption that Seal performs. */
  function SealCall(p: Primitives, plaintext: bytes, bundle: PrekeyBundle, sender: text, recipient: text,
                    coins: Coins, nonce: bytes): AeadCall
    requires Seal(p, plaintext, bundle, sender, recipient, coins, nonce).Ok?
  {
    var aad := DowngradeLockAad(Transcript(HYBRID_SUITE, sender, recipient), None);
    var shared := HybridEncap(p, bundle.HybridPublic().value, coins, HKDF_INFO).value.1;
    AeadCall(p.hkdf(WrapKeyInput(shared, aad)), nonce, plaintext, aad)
  }

  /** What opening a sealed blob under any suite and parties u comes to. */
  lemma OpenOfSeal(p: Primitives, plaintext: bytes, bundle: PrekeyBundle, sender: text, recipient: text,
                   coins: Coins, nonce: bytes, private: bytes, u: Transcript)
    requires Lawful(p) && |nonce| == NONCE_LEN
    requires Seal(p, plaintext, bundle, sender, recipient, coins, nonce).Ok?
    requires IsKeyPair(p, bundle.HybridPublic().value, private)
    ensures var sealed := Seal(p, plaintext, bundle, sender, recipient, coins, nonce).value;
      var call := SealCall(p, plaintext, bundle, sender, recipient, coins, nonce);
      var aad := DowngradeLockAad(u, None);
      var shared := HybridEncap(p, bundle.HybridPublic().value, coins, HKDF_INFO).value.1;
      && |call.key| == SECRET_LEN
      && OpenSealed(p, sealed, private, u.sender, u.recipient, u.suite)
         == match p.aeadOpen(p.hkdf(WrapKeyInput(shared, aad)), nonce, Ciphertext(p, call), aad)
            case None => Err(DowngradeDetected)
            case Some(m) => Ok(m)
  {
    hide DowngradeLockAad, HybridEncap, HybridDecap, WrapKeyInput, IsKeyPair;
    var public := bundle.HybridPublic().value;
    var sealed := Seal(p, plaintext, bundle, sender, recipient, coins, nonce).value;
    var call := SealCall(p, plaintext, bundle, sender, recipient, coins, nonce);
    var (ciphertext, shared) := HybridEncap(p, public, coins, HKDF_INFO).value;
    EncapLayout(p, public, coins, HKDF_INFO);
    DecapInvertsEncap(p, public, private, coins, HKDF_INFO);
    assert sealed == ciphertext + nonce + Ciphertext(p, call);
    assert sealed[..CIPHERTEXT_LEN] == ciphertext;
    assert sealed[CIPHERTEXT_LEN..CIPHERTEXT_LEN + NONCE_LEN] == nonce;
    assert sealed[CIPHERTEXT_LEN + NONCE_LEN..] == Ciphertext(p, call);
  }

  /** Round trip and downgrade lock in one: opening returns the body whenever suite, sender and
      recipient are the ones sealed under; otherwise it reports DowngradeDetected, or the AEAD has
      accepted its ciphertext with associated data, and a key derived from them, that it was not made
      with. */
  lemma SealedOpensOnlyAsSealed(p: Primitives, plaintext: bytes, bundle: PrekeyBundle, sender: text, recipient: text,
                                coins: Coins, nonce: bytes, private: bytes, u: Transcript)
    requires Lawful(p) && |nonce| == NONCE_LEN
    requires Seal(p, plaintext, bundle, sender, recipient, coins, nonce).Ok?
    requires IsKeyPair(p, bundle.HybridPublic().value, private)
    ensures var sealed := Seal(p, plaintext, bundle, sender, recipient, coins, nonce).value;
      var r := OpenSealed(p, sealed, private, u.sender, u.recipient, u.suite);
      var aad := DowngradeLockAad(u, None);
      var shared := HybridEncap(p, bundle.HybridPublic().value, coins, HKDF_INFO).value.1;
      if u.Paired() == Transcript(HYBRID_SUITE, sender, recipient).Paired() then r == Ok(plaintext)
      else r == Err(DowngradeDetected)
           || OpensForeign(p, SealCall(p, plaintext, bundle, sender, recipient, coins, nonce),
                           p.hkdf(WrapKeyInput(shared, aad)), aad)
  {
    hide DowngradeLockAad, HybridEncap, WrapKeyInput, IsKeyPair, OpenSealed, Seal, Transcript.Paired;
    OpenOfSeal(p, plaintext, bundle, sender, recipient, coins, nonce, private, u);
    AadEqual(Transcript(HYBRID_SUITE, sender, recipient), None, u, None);
  }

  /** A sealed blob, part by part; the AAD and the label of the wrap key, literally. */
  lemma SealedLayout(p: Primitives, plaintext: bytes, bundle: PrekeyBundle, sender: text, recipient: text,
                     coins: Coins, nonce: bytes)
    requires Lawful(p) && |nonce| == NONCE_LEN
    requires Seal(p, plaintext, bundle, sender, recipient, coins, nonce).Ok?
    ensures Hex.FromHex(bundle.hybridPublicHex).Some?
    ensures HybridEncap(p, Hex.FromHex(bundle.hybridPublicHex).value, coins, HKDF_INFO).Ok?
    ensures var sealed := Seal(p, plaintext, bundle, sender, recipient, coins, nonce).value;
      var (ciphertext, shared) := HybridEncap(p, Hex.FromHex(bundle.hybridPublicHex).value, coins, HKDF_INFO).value;
      var aad := DowngradeLockAad(Transcript(Ascii("x25519-mlkem768"), sender, recipient), None);
      && |sealed| == 1120 + 12 + |plaintext| + 16
      && sealed[..1120] == ciphertext && sealed[1120..1132] == nonce
      && sealed[1132..] == p.aeadSeal(p.hkdf(KdfInput(shared, [], WrapInfo(aad))), nonce, plaintext, aad)
  {
    hide DowngradeLockAad, HybridEncap, WrapInfo, Hex.FromHex;
    var public := bundle.HybridPublic().value;
    EncapLayout(p, public, coins, HKDF_INFO);
    var (ciphertext, shared) := HybridEncap(p, public, coins, HKDF_INFO).value;
    var aad := DowngradeLockAad(Transcript(HYBRID_SUITE, sender, recipient), None);
    var key := p.hkdf(WrapKeyInput(shared, aad));
    assert |key| == SECRET_LEN;
    var body := p.aeadSeal(key, nonce, plaintext, aad);
    var sealed := ciphertext + nonce + body;
    assert sealed[..1120] == ciphertext && sealed[1120..1132] == nonce && sealed[1132..] == body;
  }

  lemma WrapInfoText(aad: bytes)
    ensures WrapInfo(aad) == Ascii("skcomms/pqdm/wrap/v1|") + aad
  {
    assert Ascii("skcomms/pqdm/wrap/v1") + [PIPE] == Ascii("skcomms/pqdm/wrap/v1|");
  }

  // ---- tampering ----

  /** Opening any byte string that is long enough comes down to the KEM and one AEAD call. */
  lemma OpenByBox(p: Primitives, sealed: bytes, private: bytes, u: Transcript)
    requires |sealed| >= SEALED_MIN_LEN
    ensures var aad := DowngradeLockAad(u, None);
      var x := sealed[..CIPHERTEXT_LEN];
      OpenSealed(p, sealed, private, u.sender, u.recipient, u.suite)
      == if DecapLegs(p, x, private).Err? then Err(Kem(Format))
         else match BoxOpen(p, x, private, WrapInfo(aad), sealed[CIPHERTEXT_LEN..CIPHERTEXT_LEN + NONCE_LEN],
                            sealed[CIPHERTEXT_LEN + NONCE_LEN..], aad)
           case None => Err(DowngradeDetected)
           case Some(m) => Ok(m)
  {
    hide DowngradeLockAad, DecapLegs, WrapInfo;
    KemRefusal(p, sealed[..CIPHERTEXT_LEN], private);
  }

  /** The parts of a sealed blob, and the key behind its KEM ciphertext. */
  lemma SealedParts(p: Primitives, plaintext: bytes, bundle: PrekeyBundle, sender: text, recipient: text,
                    coins: Coins, nonce: bytes, private: bytes)
    requires Lawful(p) && |nonce| == NONCE_LEN
    requires Seal(p, plaintext, bundle, sender, recipient, coins, nonce).Ok?
    requires IsKeyPair(p, bundle.HybridPublic().value, private)
    ensures var sealed := Seal(p, plaintext, bundle, sender, recipient, coins, nonce).value;
      var call := SealCall(p, plaintext, bundle, sender, recipient, coins, nonce);
      && |sealed| >= SEALED_MIN_LEN && call.nonce == nonce && call.plaintext == plaintext
      && call.aad == DowngradeLockAad(Transcript(HYBRID_SUITE, sender, recipient), None)
      && sealed == sealed[..CIPHERTEXT_LEN] + nonce + Ciphertext(p, call)
      && sealed[CIPHERTEXT_LEN..] == nonce + Ciphertext(p, call)
      && BoxKey(p, sealed[..CIPHERTEXT_LEN], private, WrapInfo(call.aad)) == Some(call.key)
  {
    hide DowngradeLockAad, HybridEncap, HybridDecap, WrapInfo, IsKeyPair;
    var public := bundle.HybridPublic().value;
    var call := SealCall(p, plaintext, bundle, sender, recipient, coins, nonce);
    var (ciphertext, shared) := HybridEncap(p, public, coins, HKDF_INFO).value;
    EncapLayout(p, public, coins, HKDF_INFO);
    DecapInvertsEncap(p, public, private, coins, HKDF_INFO);
    var sealed := ciphertext + nonce + Ciphertext(p, call);
    assert sealed[..CIPHERTEXT_LEN] == ciphertext && sealed[CIPHERTEXT_LEN..] == nonce + Ciphertext(p, call);
    assert |call.key| == SECRET_LEN;
  }

  /** The outcome of opening any byte string under any suite and parties, told against what was sealed. The
      body comes out exactly for the sealed transcript (up to surrogate pairing) with the sealed nonce and
      AEAD ciphertext behind a KEM ciphertext for the same key; everything else is refused, or the AEAD has
      accepted what was never sealed. */
  lemma SealedOpensExactly(p: Primitives, plaintext: bytes, bundle: PrekeyBundle, sender: text, recipient: text,
                           coins: Coins, nonce: bytes, private: bytes, sealed': bytes, u: Transcript)
    requires Lawful(p) && |nonce| == NONCE_LEN
    requires Seal(p, plaintext, bundle, sender, recipient, coins, nonce).Ok?
    requires IsKeyPair(p, bundle.HybridPublic().value, private)
    ensures |Seal(p, plaintext, bundle, sender, recipient, coins, nonce).value| >= SEALED_MIN_LEN
    ensures var sealed := Seal(p, plaintext, bundle, sender, recipient, coins, nonce).value;
      var call := SealCall(p, plaintext, bundle, sender, recipient, coins, nonce);
      var r := OpenSealed(p, sealed', private, u.sender, u.recipient, u.suite);
      if |sealed'| < SEALED_MIN_LEN then r == Err(Malformed)
      else
        var aad' := DowngradeLockAad(u, None);
        var x, x' := sealed[..CIPHERTEXT_LEN], sealed'[..CIPHERTEXT_LEN];
        match BoxKey(p, x', private, WrapInfo(aad'))
        case None => r == Err(Kem(Format))
        case Some(key') =>
          if && u.Paired() == Transcript(HYBRID_SUITE, sender, recipient).Paired()
             && sealed'[CIPHERTEXT_LEN..] == sealed[CIPHERTEXT_LEN..]
             && OneKey(p, x, x', private, WrapInfo(call.aad))
          then r == Ok(plaintext)
          else r == Err(DowngradeDetected)
               || AcceptsUnsealed(p, call, key', sealed'[CIPHERTEXT_LEN..CIPHERTEXT_LEN + NONCE_LEN],
                                  sealed'[CIPHERTEXT_LEN + NONCE_LEN..], aad')
  {
    hide DowngradeLockAad, HybridEncap, HybridDecap, DecapLegs, WrapInfo, IsKeyPair, OpenSealed, Seal, SealCall, Transcript.Paired,
         OneKey;
    SealedParts(p, plaintext, bundle, sender, recipient, coins, nonce, private);
    var sealed := Seal(p, plaintext, bundle, sender, recipient, coins, nonce).value;
    var call := SealCall(p, plaintext, bundle, sender, recipient, coins, nonce);
    AadEqual(Transcript(HYBRID_SUITE, sender, recipient), None, u, None);
    if |sealed'| >= SEALED_MIN_LEN {
      var x' := sealed'[..CIPHERTEXT_LEN];
      var aad' := DowngradeLockAad(u, None);
      var nonce', ct' := sealed'[CIPHERTEXT_LEN..CIPHERTEXT_LEN + NONCE_LEN], sealed'[CIPHERTEXT_LEN + NONCE_LEN..];
      OpenByBox(p, sealed', private, u);
      KemRefusal(p, x', private);
      BoxOpensExactly(p, sealed[..CIPHERTEXT_LEN], private, WrapInfo(call.aad), call, x', WrapInfo(aad'), nonce', ct', aad');
      SplitTail(sealed'[CIPHERTEXT_LEN..], nonce, Ciphertext(p, call));
      assert sealed'[CIPHERTEXT_LEN..][..NONCE_LEN] == nonce' && sealed'[CIPHERTEXT_LEN..][NONCE_LEN..] == ct';
    } else {
      TooShort(p, sealed', private, u);
    }
  }

  lemma TooShort(p: Primitives, sealed: bytes, private: bytes, u: Transcript)
    requires |sealed| < SEALED_MIN_LEN
    ensures OpenSealed(p, sealed, private, u.sender, u.recipient, u.suite) == Err(Malformed)
  {
    hide DowngradeLockAad, HybridDecap;
  }

  /** Not every changed blob is refused: with the top bit of its X25519 share flipped it still opens. */
  lemma FlippedSealOpens(p: Primitives, plaintext: bytes, bundle: PrekeyBundle, sender: text, recipient: text,
                         coins: Coins, nonce: bytes, private: bytes)
    requires Lawful(p) && MasksTopBit(p) && |nonce| == NONCE_LEN
    requires Seal(p, plaintext, bundle, sender, recipient, coins, nonce).Ok?
    requires IsKeyPair(p, bundle.HybridPublic().value, private)
    ensures |Seal(p, plaintext, bundle, sender, recipient, coins, nonce).value| >= SEALED_MIN_LEN
    ensures var sealed := Seal(p, plaintext, bundle, sender, recipient, coins, nonce).value;
      && FlipTopBit(sealed) != sealed
      && OpenSealed(p, FlipTopBit(sealed), private, sender, recipient, HYBRID_SUITE) == Ok(plaintext)
  {
    hide DowngradeLockAad, HybridEncap, DecapLegs, WrapInfo, IsKeyPair, OpenSealed, Seal, SealCall, Transcript.Paired,
         OneKey;
    SealedParts(p, plaintext, bundle, sender, recipient, coins, nonce, private);
    var sealed := Seal(p, plaintext, bundle, sender, recipient, coins, nonce).value;
    var call := SealCall(p, plaintext, bundle, sender, recipient, coins, nonce);
    var x := sealed[..CIPHERTEXT_LEN];
    FlippedFront(sealed, CIPHERTEXT_LEN);
    KemRefusal(p, x, private);
    FlippedOneKey(p, x, private, WrapInfo(call.aad));
    OneKeyExact(p, x, FlipTopBit(x), private, WrapInfo(call.aad));
    SealedOpensExactly(p, plaintext, bundle, sender, recipient, coins, nonce, private, FlipTopBit(sealed),
                       Transcript(HYBRID_SUITE, sender, recipient));
  }

  // ---- what negotiation promises about sealing ----

  /** A published key that can be encapsulated to. */
  ghost predicate UsableKey(p: Primitives, publicHex: text, coins: Coins) {
    match Hex.FromHex(publicHex)
    case None => false
    case Some(public) => HybridEncap(p, public, coins, HKDF_INFO).Ok?
  }

  /** Sealing succeeds exactly for a bundle that a supporting host negotiates as hybrid and whose key reads
      as hex of the right length and can be encapsulated to; the parties and the body do not matter. An
      empty key, a bad one and a wrong suite are malformed alike. */
  lemma SealAccepts(p: Primitives, plaintext: bytes, bundle: PrekeyBundle, sender: text, recipient: text,
                    coins: Coins, nonce: bytes)
    ensures var r := Seal(p, plaintext, bundle, sender, recipient, coins, nonce);
      && (r.Ok? <==> NegotiateSuite(true, bundle) == HYBRID_SUITE && UsableKey(p, bundle.hybridPublicHex, coins))
      && (r == Err(Malformed) <==>
            NegotiateSuite(true, bundle) == CLASSICAL_SUITE
            || match Hex.FromHex(bundle.hybridPublicHex)
               case None => true
               case Some(public) => |public| != PUBLIC_KEY_LEN)
  {
    hide Hex.FromHex, DowngradeLockAad, DecapLegs, WrapKeyInput;
    assert Ascii("x25519-mlkem768")[7] != Ascii("x25519-pgp-wrap-v1")[7];
    if bundle.hybridPublicHex == [] {
      NothingIsHex();
    }
  }

  lemma NothingIsHex()
    ensures Hex.FromHex([]) == Some([])
  {
  }

  /** The gap between advertising a hybrid prekey and advertising a usable one: this bundle negotiates
      hybrid, and nothing can be sealed to it. */
  lemma HybridYetUnusable(p: Primitives, plaintext: bytes, sender: text, recipient: text, coins: Coins, nonce: bytes)
    ensures var bundle := PrekeyBundle(HYBRID_SUITE, Ascii("zz"));
      && bundle.IsHybrid() && NegotiateSuite(true, bundle) == HYBRID_SUITE
      && Seal(p, plaintext, bundle, sender, recipient, coins, nonce) == Err(Malformed)
  {
    var z: text := Ascii("zz");
    assert z[0] == 'z' as int;
    assert Hex.FromHex(z) == None;
    hide Hex.FromHex;
    SealAccepts(p, plaintext, PrekeyBundle(HYBRID_SUITE, z), sender, recipient, coins, nonce);
  }

  /** A generated key closes the gap: published in hex, it is sealed to whenever the exchange and ML-KEM
      accept, and its holder reads the body. */
  lemma GeneratedKeyIsUsable(p: Primitives, pair: KeyPair, plaintext: bytes, sender: text, recipient: text,
                             coins: Coins, nonce: bytes)
    requires Lawful(p) && |nonce| == NONCE_LEN && IsKeyPair(p, pair.public, pair.private)
    ensures var bundle := PrekeyBundle(HYBRID_SUITE, Hex.ToHex(pair.public));
      var r := Seal(p, plaintext, bundle, sender, recipient, coins, nonce);
      && (r.Ok? <==> HybridEncap(p, pair.public, coins, HKDF_INFO).Ok?)
      && (r.Ok? ==> OpenSealed(p, r.value, pair.private, sender, recipient, HYBRID_SUITE) == Ok(plaintext))
  {
    hide Hex.FromHex, Hex.ToHex, DowngradeLockAad, WrapKeyInput, OpenSealed, HybridEncap, HybridDecap, Transcript.Paired;
    var bundle := PrekeyBundle(HYBRID_SUITE, Hex.ToHex(pair.public));
    Hex.HexRoundTrip(pair.public);
    assert |pair.public| == PUBLIC_KEY_LEN;
    HexNotEmpty(pair.public);
    hide IsKeyPair;
    if Seal(p, plaintext, bundle, sender, recipient, coins, nonce).Ok? {
      SealedOpensOnlyAsSealed(p, plaintext, bundle, sender, recipient, coins, nonce, pair.private,
                              Transcript(HYBRID_SUITE, sender, recipient));
    }
  }

  lemma HexNotEmpty(b: bytes)
    ensures Hex.ToHex(b) == [] <==> b == []
  {
  }

  /** Hybrid is negotiated exactly when the host supports it and the bundle advertises it; then a bundle is
      sealed to or not by the state of its key alone. */
  lemma NegotiatedSuiteIsHonest(local: bool, bundle: PrekeyBundle, p: Primitives, plaintext: bytes,
                                sender: text, recipient: text, coins: Coins, nonce: bytes)
    ensures NegotiateSuite(local, bundle)
         == if local && bundle.suite == Ascii("x25519-mlkem768") && bundle.hybridPublicHex != []
            then Ascii("x25519-mlkem768") else Ascii("x25519-pgp-wrap-v1")
    ensures NegotiateSuite(local, bundle) == HYBRID_SUITE <==> local && bundle.IsHybrid()
    ensures NegotiateSuite(true, bundle) == HYBRID_SUITE ==>
              (Seal(p, plaintext, bundle, sender, recipient, coins, nonce).Ok?
               <==> UsableKey(p, bundle.hybridPublicHex, coins))
    ensures NegotiateSuite(true, bundle) != HYBRID_SUITE ==>
              Seal(p, plaintext, bundle, sender, recipient, coins, nonce) == Err(Malformed)
  {
    hide Seal, UsableKey;
    assert Ascii("x25519-mlkem768")[7] != Ascii("x25519-pgp-wrap-v1")[7];
    SealAccepts(p, plaintext, bundle, sender, recipient, coins, nonce);
  }
}
