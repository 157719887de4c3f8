/** The pqdm2 multi-recipient envelope: one body sealed once, its key wrapped per device slot. */
module Pqdm2 {
  import opened Basics
  import opened Crypto
  import opened Encodings
  import opened Json
  import opened JsonRoundTrip
  import opened Ordering
  import opened PqKem
  import opened Slots
  import Base64
  import Hex
  import PqDm
  import Utf8

  const PREFIX: seq<ascii> := Ascii("pqdm2:")
  const WRAP_INFO: bytes := Ascii("pqdm2-wrap")
  const DOT: ascii := '.' as int
  const PIPE: ascii := PqDm.PIPE

  datatype Recipient = Recipient(keyId: text, publicHex: text)

  /** PqDmFormatError in its three uses, UnicodeEncodeError, or an error of the KEM. */
  datatype SealError = NoRecipients | KeyIdTooLong | BadHex | NotUtf8 | Kem(error: KemError)

  // ---- the body AAD ----

  /** The string that is hashed for the slot set. */
  function JoinedKids(kids: seq<text>): text {
    Join(SortTexts(kids))
  }

  /** The digest that stands for the slot set. */
  function KidDigest(p: Primitives, kids: seq<text>): Option<bytes> {
    match Utf8.Encode(JoinedKids(kids))
    case None => None
    case Some(joined) => Some(p.sha256(joined))
  }

  /** `_pqdm2_aad`; None where a string has no UTF-8 form. */
  function Aad(p: Primitives, suite: text, sender: text, recipient: text, kids: seq<text>): Option<bytes> {
    match (KidDigest(p, kids), Utf8.Encode(suite), Utf8.Encode(sender), Utf8.Encode(recipient))
    case (Some(digest), Some(s), Some(f), Some(t)) =>
      Some(s + [PIPE] + f + [PIPE] + t + [PIPE] + digest)
    case _ => None
  }

  // ---- sealing ----

  function WrapKeyInput(shared: bytes): KdfInput {
    KdfInput(shared, [], WRAP_INFO)
  }

  function Kids(recipients: seq<Recipient>): (kids: seq<text>)
    ensures |kids| == |recipients|
    ensures forall i :: 0 <= i < |kids| ==> kids[i] == recipients[i].keyId
  {
    seq(|recipients|, i requires 0 <= i < |recipients| => recipients[i].keyId)
  }

  /** The slot of one recipient: the message key wrapped under a secret encapsulated to it. */
  function SealSlot(p: Primitives, r: Recipient, messageKey: bytes, nonce: bytes, coins: Coins): Result<Slot, SealError> {
    match Utf8.Encode(r.keyId)
    case None => Err(NotUtf8)
    case Some(kid) =>
      if |kid| > 255 then Err(KeyIdTooLong)
      else match Hex.FromHex(r.publicHex)
        case None => Err(BadHex)
        case Some(public) =>
          match HybridEncap(p, public, coins, HKDF_INFO)
          case Err(e) => Err(Kem(e))
          case Ok((encap, shared)) =>
            Ok(Slot(kid, encap, p.aeadSeal(p.hkdf(WrapKeyInput(shared)), nonce, messageKey, [])))
  }

  /** The slots in order, or the error of the first recipient that has one. */
  function SealSlots(p: Primitives, recipients: seq<Recipient>, messageKey: bytes, nonce: bytes, coins: seq<Coins>)
    : (r: Result<seq<Slot>, SealError>)
    requires |coins| == |recipients|
    ensures r.Ok? ==> |r.value| == |recipients|
  {
    if recipients == [] then Ok([])
    else
      var n := |recipients| - 1;
      match SealSlots(p, recipients[..n], messageKey, nonce, coins[..n])
      case Err(e) => Err(e)
      case Ok(slots) =>
        match SealSlot(p, recipients[n], messageKey, nonce, coins[n])
        case Err(e) => Err(e)
        case Ok(slot) => Ok(slots + [slot])
  }

  function Header(sender: text, recipientId: text, kids: seq<text>): Json {
    Obj(Dict([
      (Ascii("v"), Int(2)),
      (Ascii("suite"), Str(PqDm.HYBRID_SUITE)),
      (Ascii("sender"), Str(sender)),
      (Ascii("recipient"), Str(recipientId)),
      (Ascii("kids"), Arr(Strs(kids)))
    ]))
  }

  function Strs(ts: seq<text>): (js: seq<Json>)
    ensures |js| == |ts|
    ensures forall i :: 0 <= i < |js| ==> js[i] == Str(ts[i])
  {
    seq(|ts|, i requires 0 <= i < |ts| => Str(ts[i]))
  }

  /** The parts of an envelope: header, slot region, and nonce with body ciphertext. */
  datatype Parts = Parts(header: Json, slots: bytes, blob: bytes)

  /** An envelope as the text that travels. */
  function Token(e: Parts): text {
    var h: text := Base64.Encode(Base64.Standard, Dumps(e.header));
    var s: text := Base64.Encode(Base64.Standard, e.slots);
    var b: text := Base64.Encode(Base64.Standard, e.blob);
    PREFIX + (h + [DOT] + s + [DOT] + b)
  }

  /** The envelope around a packed slot region. */
  function Envelope(p: Primitives, body: bytes, kids: seq<text>, slots: bytes, sender: text, recipientId: text,
                    messageKey: bytes, nonce: bytes, aad: bytes): Parts
  {
    Parts(Header(sender, recipientId, kids), slots, nonce + p.aeadSeal(messageKey, nonce, body, aad))
  }

  /** Sealing without the loop: all slots at once, then packed. */
  ghost function SealParts(p: Primitives, body: bytes, recipients: seq<Recipient>, sender: text, recipientId: text,
                           messageKey: bytes, nonce: bytes, coins: seq<Coins>): Result<Parts, SealError>
    requires Lawful(p) && |messageKey| == SECRET_LEN && |nonce| == NONCE_LEN && |coins| == |recipients|
  {
    if recipients == [] then Err(NoRecipients)
    else match Aad(p, PqDm.HYBRID_SUITE, sender, recipientId, Kids(recipients))
      case None => Err(NotUtf8)
      case Some(aad) =>
        match SealSlots(p, recipients, messageKey, nonce, coins)
        case Err(e) => Err(e)
        case Ok(slots) =>
          SealedSlotsValid(p, recipients, messageKey, nonce, coins);
          Ok(Envelope(p, body, Kids(recipients), Pack(slots), sender, recipientId, messageKey, nonce, aad))
  }

  lemma SealedSlotValid(p: Primitives, r: Recipient, messageKey: bytes, nonce: bytes, coins: Coins)
    requires Lawful(p) && |messageKey| == SECRET_LEN && |nonce| == NONCE_LEN
    requires SealSlot(p, r, messageKey, nonce, coins).Ok?
    ensures SealSlot(p, r, messageKey, nonce, coins).value.Valid()
  {
    hide HybridEncap;
    var public := Hex.FromHex(r.publicHex).value;
    EncapLayout(p, public, coins, HKDF_INFO);
  }

  /** Slot i of the list is what sealing to recipient i alone gives. */
  lemma {:induction false} SealedSlotsValid(p: Primitives, recipients: seq<Recipient>, messageKey: bytes, nonce: bytes,
                                            coins: seq<Coins>)
    requires Lawful(p) && |messageKey| == SECRET_LEN && |nonce| == NONCE_LEN && |coins| == |recipients|
    ensures var r := SealSlots(p, recipients, messageKey, nonce, coins);
      r.Ok? ==> AllValid(r.value) && forall i :: 0 <= i < |r.value| ==>
        SealSlot(p, recipients[i], messageKey, nonce, coins[i]) == Ok(r.value[i])
  {
    var n := |recipients| - 1;
    if n >= 0 && SealSlots(p, recipients, messageKey, nonce, coins).Ok? {
      hide SealSlot, Lawful, Slot.Valid;
      var front := SealSlots(p, recipients[..n], messageKey, nonce, coins[..n]).value;
      var last := SealSlot(p, recipients[n], messageKey, nonce, coins[n]).value;
      assert SealSlots(p, recipients, messageKey, nonce, coins).value == front + [last];
      hide SealSlots;
      SealedSlotsValid(p, recipients[..n], messageKey, nonce, coins[..n]);
      SealedSlotValid(p, recipients[n], messageKey, nonce, coins[n]);
    }
  }

  /** `seal_multi`: the slot region grows by one record per recipient. */
  method SealMulti(p: Primitives, body: bytes, recipients: seq<Recipient>, sender: text, recipientId: text,
                   messageKey: bytes, nonce: bytes, coins: seq<Coins>) returns (r: Result<text, SealError>)
    requires Lawful(p) && |messageKey| == SECRET_LEN && |nonce| == NONCE_LEN && |coins| == |recipients|
    ensures r == match SealParts(p, body, recipients, sender, recipientId, messageKey, nonce, coins)
                 case Err(e) => Err(e)
                 case Ok(envelope) => Ok(Token(envelope))
  {
    hide Aad, SealSlot, Envelope, Token, PackSlot;
    if recipients == [] {
      return Err(NoRecipients);
    }
    var kids := Kids(recipients);
    var aad := Aad(p, PqDm.HYBRID_SUITE, sender, recipientId, kids);
    if aad == None {
      return Err(NotUtf8);
    }
    var slots: bytes := [];
    ghost var sealed: seq<Slot> := [];
    for i := 0 to |recipients|
      invariant AllValid(sealed) && slots == Pack(sealed)
      invariant SealSlots(p, recipients[..i], messageKey, nonce, coins[..i]) == Ok(sealed)
    {
      assert recipients[..i + 1][..i] == recipients[..i] && coins[..i + 1][..i] == coins[..i];
      var next := SealSlot(p, recipients[i], messageKey, nonce, coins[i]);
      if next.Err? {
        FirstErrorWins(p, recipients, messageKey, nonce, coins, i + 1);
        return Err(next.error);
      }
      SealedSlotValid(p, recipients[i], messageKey, nonce, coins[i]);
      var slot := next.value;
      PackAppend(sealed, slot);
      ghost var before := slots;
      slots := slots + [|slot.kid|];
      slots := slots + slot.kid;
      slots := slots + slot.encap;
      slots := slots + slot.wrapped;
      PackedPiecewise(before, slot);
      sealed := sealed + [slot];
    }
    assert recipients[..|recipients|] == recipients && coins[..|recipients|] == coins;
    r := Ok(Token(Envelope(p, body, kids, slots, sender, recipientId, messageKey, nonce, aad.value)));
  }

  lemma PackedPiecewise(b: bytes, s: Slot)
    requires s.Valid()
    ensures b + PackSlot(s) == b + [|s.kid|] + s.kid + s.encap + s.wrapped
  {
  }

  lemma {:induction false} FirstErrorWins(p: Primitives, recipients: seq<Recipient>, messageKey: bytes, nonce: bytes,
                                          coins: seq<Coins>, n: nat)
    requires |coins| == |recipients| && n <= |recipients|
    requires SealSlots(p, recipients[..n], messageKey, nonce, coins[..n]).Err?
    ensures SealSlots(p, recipients, messageKey, nonce, coins)
         == SealSlots(p, recipients[..n], messageKey, nonce, coins[..n])
    decreases |recipients| - n
  {
    if n == |recipients| {
      assert recipients[..n] == recipients && coins[..n] == coins;
    } else {
      assert recipients[..n + 1][..n] == recipients[..n] && coins[..n + 1][..n] == coins[..n];
      FirstErrorWins(p, recipients, messageKey, nonce, coins, n + 1);
    }
  }

  /** The encryption that SealSlot performs. */
  function SlotCall(p: Primitives, r: Recipient, messageKey: bytes, nonce: bytes, coins: Coins): AeadCall
    requires SealSlot(p, r, messageKey, nonce, coins).Ok?
  {
    var shared := HybridEncap(p, Hex.FromHex(r.publicHex).value, coins, HKDF_INFO).value.1;
    AeadCall(p.hkdf(WrapKeyInput(shared)), nonce, messageKey, [])
  }

  // ---- opening ----

  function ParseToken(token: text): Option<Parts> {
    if !StartsWith(token, PREFIX) then None
    else
      var parts: seq<text> := Split<codepoint>(token[|PREFIX|..], DOT);
      if |parts| != 3 then None
      else match (Base64.Decode(Base64.Standard, parts[0]),
                  Base64.Decode(Base64.Standard, parts[1]),
                  Base64.Decode(Base64.Standard, parts[2]))
        case (Some(h), Some(slots), Some(blob)) =>
          (match LoadsBytes(h)
           case None => None
           case Some(header) => Some(Parts(header, slots, blob)))
        case _ => None
  }

  /** What `sorted` and `join` make of a JSON value: a list of strings, the characters of a string,
      the keys of a dict; None where they raise. */
  function KidList(v: Json): Option<seq<text>> {
    match v
    case Arr(items) =>
      if forall i :: 0 <= i < |items| ==> items[i].Str?
      then Some(seq(|items|, i requires 0 <= i < |items| => items[i].s))
      else None
    case Str(s) => Some(seq(|s|, i requires 0 <= i < |s| => [s[i]]))
    case Obj(fields) => Some(SortedKeys(fields.Keys))
    case _ => None
  }

  /** The suite and the key ids that a header names; None where reading them raises. */
  function HeaderClaims(header: Json): Option<(text, seq<text>)> {
    if !header.Obj? then None
    else
      var f := header.fields;
      var kids := if Ascii("kids") in f then f[Ascii("kids")] else Arr([]);
      var suite := if Ascii("suite") in f then f[Ascii("suite")] else Str(PqDm.HYBRID_SUITE);
      if !suite.Str? then None
      else match KidList(kids)
        case None => None
        case Some(ks) => Some((suite.s, ks))
  }

  /** The body AAD that a header calls for. */
  function HeaderAad(p: Primitives, header: Json, sender: text, recipientId: text): Option<bytes> {
    match HeaderClaims(header)
    case None => None
    case Some((suite, kids)) => Aad(p, suite, sender, recipientId, kids)
  }

  function Take(b: bytes, n: nat): bytes {
    if n <= |b| then b[..n] else b
  }

  function Drop(b: bytes, n: nat): bytes {
    if n <= |b| then b[n..] else []
  }

  /** Unwrap the message key from a slot. */
  function UnwrapSlot(p: Primitives, encap: bytes, wrapped: bytes, private: bytes, nonce: bytes): Option<bytes> {
    match HybridDecap(p, encap, private, HKDF_INFO)
    case Err(_) => None
    case Ok(shared) => p.aeadOpen(p.hkdf(WrapKeyInput(shared)), nonce, wrapped, [])
  }

  /** Unwrap the message key from a slot and open the body with it. */
  function OpenSlot(p: Primitives, encap: bytes, wrapped: bytes, private: bytes, nonce: bytes, ct: bytes, aad: bytes)
    : Option<bytes>
  {
    match UnwrapSlot(p, encap, wrapped, private, nonce)
    case None => None
    case Some(messageKey) => p.aeadOpen(messageKey, nonce, ct, aad)
  }

  /** Opening, told without a scan: the first record that matches decides. */
  function OpenParts(p: Primitives, e: Parts, keyId: text, private: bytes, aad: bytes): Option<bytes> {
    var records := ParseSlots(e.slots).records;
    var n := FirstMatch(records, keyId);
    if n == |records| then None
    else OpenSlot(p, records[n].encap, records[n].wrapped, private,
                  Take(e.blob, NONCE_LEN), Drop(e.blob, NONCE_LEN), aad)
  }

  /** The key that a device unwraps with its private key, from the first matching record. */
  function RecordsKey(p: Primitives, records: seq<Slot>, keyId: text, private: bytes, nonce: bytes): Option<bytes> {
    var n := FirstMatch(records, keyId);
    if n == |records| then None else UnwrapSlot(p, records[n].encap, records[n].wrapped, private, nonce)
  }

  /** The key that a device unwraps from an envelope. */
  function DeviceKey(p: Primitives, e: Parts, keyId: text, private: bytes): Option<bytes> {
    RecordsKey(p, ParseSlots(e.slots).records, keyId, private, Take(e.blob, NONCE_LEN))
  }

  /** Opening an envelope whose text and whose private key have been read. */
  function OpenEnvelope(p: Primitives, e: Parts, keyId: text, private: bytes, sender: text, recipientId: text)
    : Option<bytes>
  {
    match HeaderAad(p, e.header, sender, recipientId)
    case None => None
    case Some(aad) => OpenParts(p, e, keyId, private, aad)
  }

  function OpenMultiSpec(p: Primitives, token: text, keyId: text, privateHex: text, sender: text, recipientId: text)
    : Option<bytes>
  {
    match (ParseToken(token), Hex.FromHex(privateHex))
    case (Some(e), Some(private)) => OpenEnvelope(p, e, keyId, private, sender, recipientId)
    case _ => None
  }

  /** `open_multi`: the region is scanned lazily and the scan stops at the first match, so a malformed
      remainder is never looked at. */
  method OpenMulti(p: Primitives, token: text, keyId: text, privateHex: text, sender: text, recipientId: text)
    returns (r: Option<bytes>)
    ensures r == OpenMultiSpec(p, token, keyId, privateHex, sender, recipientId)
  {
    hide ParseToken, HeaderAad, OpenSlot, Hex.FromHex, Utf8.DecodeReplace, Take, Drop, ParseSlots, FirstMatch;
    var parsed := ParseToken(token);
    if parsed == None {
      return None;
    }
    var slots := parsed.value.slots;
    var aad := HeaderAad(p, parsed.value.header, sender, recipientId);
    var private := Hex.FromHex(privateHex);
    if aad == None || private == None {
      return None;
    }
    var nonce, ct := Take(parsed.value.blob, NONCE_LEN), Drop(parsed.value.blob, NONCE_LEN);
    ghost var records := ParseSlots(slots).records;
    ghost var seen := 0;
    assert slots[0..] == slots && records[0..] == records;
    var off, n := 0, |slots|;
    while off < n
      invariant 0 <= off <= n && seen <= |records|
      invariant ParseSlots(slots[off..]).records == records[seen..]
      invariant seen <= FirstMatch(records, keyId)
      decreases n - off
    {
      ParseAt(slots, off);
      var kidLen := slots[off];
      var start := off + 1;
      var endKid := start + kidLen;
      var endEncap := endKid + CIPHERTEXT_LEN;
      var endWrap := endEncap + WRAPPED_KEY_LEN;
      if endWrap > n {
        return None;
      }
      var kid, encap, wrapped := slots[start..endKid], slots[endKid..endEncap], slots[endEncap..endWrap];
      assert Slot(kid, encap, wrapped) == records[seen..][0] == records[seen];
      assert records[seen..][1..] == records[seen + 1..];
      if Utf8.DecodeReplace(kid) == keyId {
        return OpenSlot(p, encap, wrapped, private.value, nonce, ct, aad.value);
      }
      off := endWrap;
      seen := seen + 1;
    }
    assert slots[off..] == [];
    ParseNothing();
    r := None;
  }
}
