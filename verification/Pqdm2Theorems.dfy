/** What a pqdm2 token guarantees: fanout, the reach of the slot scan, and what the AAD binds. */
module Pqdm2Theorems {
  import opened Basics
  import opened Crypto
  import opened Encodings
  import opened Json
  import opened JsonRoundTrip
  import opened Ordering
  import opened KemBox
  import opened PqKem
  import opened Slots
  import opened Pqdm2
  import Base64
  import Hex
  import PqDm
  import Utf8

  // ---- the token codec ----

  /** Parsing a token gives back what was put in, the header up to pairing. */
  lemma ParseTokenOf(e: Parts)
    requires e.header.Obj? && WellFormed(e.header)
    ensures ParseToken(Token(e)) == Some(e.(header := PairJson(e.header)))
  {
    hide Base64.Encode, Base64.Decode, Dumps, LoadsBytes, WellFormed, PairJson;
    var a := Base64.Standard;
    var h: text, s: text, b: text :=
      Base64.Encode(a, Dumps(e.header)), Base64.Encode(a, e.slots), Base64.Encode(a, e.blob);
    var rest: text := h + [DOT] + s + [DOT] + b;
    assert Token(e) == PREFIX + rest;
    assert Token(e)[..|PREFIX|] == PREFIX && Token(e)[|PREFIX|..] == rest;
    Base64.EncodeIsDotFree(a, Dumps(e.header));
    Base64.EncodeIsDotFree(a, e.slots);
    Base64.EncodeIsDotFree(a, e.blob);
    SplitThree<codepoint>(h, s, b, DOT);
    Base64.DecodeEncode(a, Dumps(e.header));
    Base64.DecodeEncode(a, e.slots);
    Base64.DecodeEncode(a, e.blob);
    LoadsBytesDumps(e.header);
  }

  /** The text of a token: the scheme, then header, slot region and blob in the standard base64 alphabet, in
      this order, with dots between them. */
  lemma TokenLayout(e: Parts)
    ensures |Token(e)| >= 6 && Token(e)[..6] == Ascii("pqdm2:")
    ensures Split<codepoint>(Token(e)[6..], '.' as int)
         == [Base64.Encode(Base64.Standard, Dumps(e.header)), Base64.Encode(Base64.Standard, e.slots),
             Base64.Encode(Base64.Standard, e.blob)]
  {
    hide Base64.Encode, Dumps;
    var a := Base64.Standard;
    var h: text, s: text, b: text :=
      Base64.Encode(a, Dumps(e.header)), Base64.Encode(a, e.slots), Base64.Encode(a, e.blob);
    assert Token(e) == PREFIX + (h + [DOT] + s + [DOT] + b);
    assert |PREFIX| == 6;
    Base64.EncodeIsDotFree(a, Dumps(e.header));
    Base64.EncodeIsDotFree(a, e.slots);
    Base64.EncodeIsDotFree(a, e.blob);
    SplitThree<codepoint>(h, s, b, DOT);
  }

  /** Which texts parse, and to what: exactly the scheme followed by three parts that a dot separates, each of
      them base64, the first of them of a JSON document. */
  lemma ParseTokenExact(token: text, h: text, s: text, b: text)
    requires '.' as int !in h && '.' as int !in s && '.' as int !in b
    requires token == Ascii("pqdm2:") + (h + Ascii(".") + s + Ascii(".") + b)
    ensures ParseToken(token)
         == match (Base64.Decode(Base64.Standard, h), Base64.Decode(Base64.Standard, s), Base64.Decode(Base64.Standard, b))
            case (Some(header), Some(slots), Some(blob)) =>
              (match LoadsBytes(header)
               case None => None
               case Some(v) => Some(Parts(v, slots, blob)))
            case _ => None
  {
    hide Base64.Decode, LoadsBytes;
    assert Ascii(".") == [DOT];
    assert token[..|PREFIX|] == PREFIX && token[|PREFIX|..] == h + [DOT] + s + [DOT] + b;
    SplitThree<codepoint>(h, s, b, DOT);
  }

  lemma {:induction false} SplitJoins(t: text, x: codepoint)
    ensures Split(t, x) != [] && forall i :: 0 <= i < |Split(t, x)| ==> x !in Split(t, x)[i]
    ensures |Split(t, x)| == 1 ==> t == Split(t, x)[0]
    ensures |Split(t, x)| > 1 ==> exists rest :: t == Split(t, x)[0] + [x] + rest && Split(rest, x) == Split(t, x)[1..]
    decreases |t|
  {
    var n := IndexOf(t, x);
    if n < |t| {
      var rest := t[n + 1..];
      SplitJoins(rest, x);
      assert t == t[..n] + [x] + rest;
      assert Split(t, x)[1..] == Split(rest, x);
    }
  }

  /** No other text parses. */
  lemma ParsedTokenHasParts(token: text) returns (h: text, s: text, b: text)
    requires ParseToken(token).Some?
    ensures '.' as int !in h && '.' as int !in s && '.' as int !in b
    ensures token == Ascii("pqdm2:") + (h + Ascii(".") + s + Ascii(".") + b)
  {
    hide Base64.Decode, LoadsBytes, Split;
    var rest := token[|PREFIX|..];
    var parts: seq<text> := Split<codepoint>(rest, DOT);
    assert token == PREFIX + rest && Ascii(".") == [DOT];
    SplitJoins(rest, DOT);
    h, s, b := parts[0], parts[1], parts[2];
    var more :| rest == parts[0] + [DOT] + more && Split<codepoint>(more, DOT) == parts[1..];
    SplitJoins(more, DOT);
    var last :| more == parts[1..][0] + [DOT] + last && Split<codepoint>(last, DOT) == parts[1..][1..];
    SplitJoins(last, DOT);
    assert last == b;
    assert rest == h + [DOT] + (s + [DOT] + b);
  }

  /** The fields of the header. */
  lemma HeaderFields(sender: text, recipientId: text, kids: seq<text>)
    ensures Header(sender, recipientId, kids) == Obj(map[
        Ascii("v") := Int(2),
        Ascii("suite") := Str(PqDm.HYBRID_SUITE),
        Ascii("sender") := Str(sender),
        Ascii("recipient") := Str(recipientId),
        Ascii("kids") := Arr(Strs(kids))])
  {
    hide Dict;
    var a, b, c, d := (Ascii("v"), Int(2)), (Ascii("suite"), Str(PqDm.HYBRID_SUITE)),
        (Ascii("sender"), Str(sender)), (Ascii("recipient"), Str(recipientId));
    var k, v := Ascii("kids"), Arr(Strs(kids));
    DictFour(a, b, c, d);
    DictAppend([a, b, c, d], k, v);
    assert [a, b, c, d] + [(k, v)] == [a, b, c, d, (k, v)];
  }

  lemma HeaderWellFormed(sender: text, recipientId: text, kids: seq<text>)
    ensures Header(sender, recipientId, kids).Obj? && WellFormed(Header(sender, recipientId, kids))
  {
    hide Header;
    HeaderFields(sender, recipientId, kids);
    assert WellFormed(Arr(Strs(kids)));
  }

  lemma {:induction false} PairedKids(kids: seq<text>)
    requires forall i :: 0 <= i < |kids| ==> WellPaired(kids[i])
    ensures PairItems(Strs(kids)) == Strs(kids)
  {
    if kids != [] {
      PairIdentity(kids[0]);
      PairedKids(kids[1..]);
      assert Strs(kids)[1..] == Strs(kids[1..]);
      assert PairItems(Strs(kids)) == [Str(kids[0])] + Strs(kids[1..]);
    }
  }

  lemma HeaderKeysPaired(sender: text, recipientId: text, kids: seq<text>)
    ensures var v := Header(sender, recipientId, kids);
      v.Obj? && forall k :: k in v.fields ==> WellPaired(k)
  {
    hide Header, WellPaired;
    HeaderFields(sender, recipientId, kids);
    AsciiWellPaired(Ascii("v"));
    AsciiWellPaired(Ascii("suite"));
    AsciiWellPaired(Ascii("sender"));
    AsciiWellPaired(Ascii("recipient"));
    AsciiWellPaired(Ascii("kids"));
  }

  lemma PairedClaims(kids: seq<text>)
    requires forall i :: 0 <= i < |kids| ==> WellPaired(kids[i])
    ensures PairJson(Arr(Strs(kids))) == Arr(Strs(kids))
    ensures PairJson(Str(PqDm.HYBRID_SUITE)) == Str(PqDm.HYBRID_SUITE)
  {
    PairIdentity(PqDm.HYBRID_SUITE);
    PairedKids(kids);
  }

  /** The header of a token names the suite and the kids it was built with. */
  lemma ClaimsOfHeader(sender: text, recipientId: text, kids: seq<text>)
    requires forall i :: 0 <= i < |kids| ==> WellPaired(kids[i])
    ensures HeaderClaims(PairJson(Header(sender, recipientId, kids))) == Some((PqDm.HYBRID_SUITE, kids))
  {
    hide Header, KidList, PairJson, Strs, WellPaired;
    var v := Header(sender, recipientId, kids);
    HeaderFields(sender, recipientId, kids);
    HeaderKeysPaired(sender, recipientId, kids);
    PairedFields(v);
    PairedClaims(kids);
    KidListOf(kids);
  }

  /** How open reads a header that was not written by seal: a missing suite stands for the hybrid one, missing
      key ids for none; key ids given as a string stand for its characters, as a dict for its sorted keys;
      anything else that is not a list of strings, and a suite that is no string, raises. */
  lemma HeaderDefaults(f: map<text, Json>)
    ensures Ascii("suite") !in f ==>
              HeaderClaims(Obj(f)) == HeaderClaims(Obj(f[Ascii("suite") := Str(Ascii("x25519-mlkem768"))]))
    ensures Ascii("kids") !in f ==> HeaderClaims(Obj(f)) == HeaderClaims(Obj(f[Ascii("kids") := Arr([])]))
    ensures Ascii("suite") in f && !f[Ascii("suite")].Str? ==> HeaderClaims(Obj(f)) == None
    ensures Ascii("suite") in f && f[Ascii("suite")].Str? && Ascii("kids") in f ==>
              var suite, kids := f[Ascii("suite")].s, f[Ascii("kids")];
              && (forall ks :: kids == Arr(Strs(ks)) ==> HeaderClaims(Obj(f)) == Some((suite, ks)))
              && (kids.Str? ==> HeaderClaims(Obj(f)) == Some((suite, Characters(kids.s))))
              && (kids.Obj? ==> HeaderClaims(Obj(f)) == Some((suite, SortedKeys(kids.fields.Keys))))
              && (kids.Arr? && (exists i :: 0 <= i < |kids.items| && !kids.items[i].Str?) ==> HeaderClaims(Obj(f)) == None)
              && (kids.Null? || kids.Bool? || kids.Int? || kids.Float? ==> HeaderClaims(Obj(f)) == None)
    ensures forall v: Json :: !v.Obj? ==> HeaderClaims(v) == None
  {
    assert Ascii("suite")[0] != Ascii("kids")[0];
    hide Ascii, Strs;
    if Ascii("kids") in f {
      forall ks | f[Ascii("kids")] == Arr(Strs(ks))
        ensures KidList(f[Ascii("kids")]) == Some(ks)
      {
        KidListOf(ks);
      }
    }
  }

  function Characters(s: text): (r: seq<text>)
    ensures |r| == |s| && forall i :: 0 <= i < |s| ==> r[i] == [s[i]]
  {
    seq(|s|, i requires 0 <= i < |s| => [s[i]])
  }

  lemma KidListOf(kids: seq<text>)
    ensures KidList(Arr(Strs(kids))) == Some(kids)
  {
    var items := Strs(kids);
    assert seq(|items|, i requires 0 <= i < |items| => items[i].s) == kids;
  }

  // ---- what sealing produces ----

  lemma UnwrapByBox(p: Primitives, encap: bytes, wrapped: bytes, private: bytes, nonce: bytes)
    ensures UnwrapSlot(p, encap, wrapped, private, nonce) == BoxOpen(p, encap, private, WRAP_INFO, nonce, wrapped, [])
  {
    hide HybridDecap;
  }

  /** The parts of a sealed slot, and the key behind its KEM ciphertext. */
  lemma SlotParts(p: Primitives, r: Recipient, messageKey: bytes, nonce: bytes, coins: Coins, private: bytes)
    requires Lawful(p) && |messageKey| == SECRET_LEN && |nonce| == NONCE_LEN
    requires SealSlot(p, r, messageKey, nonce, coins).Ok?
    requires IsKeyPair(p, Hex.FromHex(r.publicHex).value, private)
    ensures var slot := SealSlot(p, r, messageKey, nonce, coins).value;
      var call := SlotCall(p, r, messageKey, nonce, coins);
      && call.nonce == nonce && call.plaintext == messageKey && call.aad == [] && slot.wrapped == Ciphertext(p, call)
      && BoxKey(p, slot.encap, private, WRAP_INFO) == Some(call.key)
  {
    hide HybridEncap, HybridDecap, IsKeyPair;
    var public := Hex.FromHex(r.publicHex).value;
    EncapLayout(p, public, coins, HKDF_INFO);
    DecapInvertsEncap(p, public, private, coins, HKDF_INFO);
  }

  /** What unwrapping any record with any nonce comes to for the recipient of a slot: the message key comes
      out exactly where nonce and wrapped key are the sealed ones behind a KEM ciphertext for the same key;
      otherwise nothing, or the AEAD has accepted what was never sealed. */
  lemma UnwrapExactly(p: Primitives, r: Recipient, messageKey: bytes, nonce: bytes, coins: Coins, private: bytes,
                      record: Slot, nonce': bytes)
    requires Lawful(p) && |messageKey| == SECRET_LEN && |nonce| == NONCE_LEN
    requires SealSlot(p, r, messageKey, nonce, coins).Ok?
    requires IsKeyPair(p, Hex.FromHex(r.publicHex).value, private)
    ensures var slot := SealSlot(p, r, messageKey, nonce, coins).value;
      var call := SlotCall(p, r, messageKey, nonce, coins);
      var k := UnwrapSlot(p, record.encap, record.wrapped, private, nonce');
      match BoxKey(p, record.encap, private, WRAP_INFO)
      case None => k == None
      case Some(key') =>
        if nonce' == nonce && record.wrapped == slot.wrapped && OneKey(p, slot.encap, record.encap, private, WRAP_INFO)
        then k == Some(messageKey)
        else k == None || AcceptsUnsealed(p, call, key', nonce', record.wrapped, [])
  {
    hide SealSlot, SlotCall, BoxKey, BoxOpen, OneKey, UnwrapSlot, IsKeyPair;
    var slot := SealSlot(p, r, messageKey, nonce, coins).value;
    SlotParts(p, r, messageKey, nonce, coins, private);
    UnwrapByBox(p, record.encap, record.wrapped, private, nonce');
    BoxOpensExactly(p, slot.encap, private, WRAP_INFO, SlotCall(p, r, messageKey, nonce, coins),
                    record.encap, WRAP_INFO, nonce', record.wrapped, []);
  }

  /** A slot gives the message key to the recipient it was sealed to, and still does with the top bit of
      its X25519 share flipped. */
  lemma UnwrapOwnSlot(p: Primitives, r: Recipient, messageKey: bytes, nonce: bytes, coins: Coins, private: bytes)
    requires Lawful(p) && |messageKey| == SECRET_LEN && |nonce| == NONCE_LEN
    requires SealSlot(p, r, messageKey, nonce, coins).Ok?
    requires IsKeyPair(p, Hex.FromHex(r.publicHex).value, private)
    ensures var slot := SealSlot(p, r, messageKey, nonce, coins).value;
      && UnwrapSlot(p, slot.encap, slot.wrapped, private, nonce) == Some(messageKey)
      && |slot.encap| == CIPHERTEXT_LEN
      && (MasksTopBit(p) ==> UnwrapSlot(p, FlipTopBit(slot.encap), slot.wrapped, private, nonce) == Some(messageKey))
  {
    hide SealSlot, SlotCall, OneKey, UnwrapSlot, HybridDecap, DecapLegs, IsKeyPair;
    var slot := SealSlot(p, r, messageKey, nonce, coins).value;
    SlotParts(p, r, messageKey, nonce, coins, private);
    SealedSlotValid(p, r, messageKey, nonce, coins);
    OneKeyExact(p, slot.encap, slot.encap, private, WRAP_INFO);
    UnwrapExactly(p, r, messageKey, nonce, coins, private, slot, nonce);
    if MasksTopBit(p) {
      var x := FlipTopBit(slot.encap);
      KemRefusal(p, slot.encap, private);
      FlippedOneKey(p, slot.encap, private, WRAP_INFO);
      OneKeyExact(p, slot.encap, x, private, WRAP_INFO);
      UnwrapExactly(p, r, messageKey, nonce, coins, private, slot.(encap := x), nonce);
    }
  }

  /** A sealed slot decodes to its recipient's key id, which JSON keeps as it is. */
  lemma SealedKid(p: Primitives, r: Recipient, messageKey: bytes, nonce: bytes, coins: Coins)
    requires SealSlot(p, r, messageKey, nonce, coins).Ok?
    ensures Utf8.DecodeReplace(SealSlot(p, r, messageKey, nonce, coins).value.kid) == r.keyId
    ensures WellPaired(r.keyId)
  {
    Utf8.DecodeEncode(r.keyId);
    ScalarTextIsWellPaired(r.keyId);
  }

  /** What a successful `seal_multi` has to show for itself. */
  ghost predicate Sealed(p: Primitives, body: bytes, recipients: seq<Recipient>, sender: text, recipientId: text,
                         messageKey: bytes, nonce: bytes, coins: seq<Coins>, e: Parts)
  {
    && Lawful(p) && |messageKey| == SECRET_LEN && |nonce| == NONCE_LEN && |coins| == |recipients|
    && SealParts(p, body, recipients, sender, recipientId, messageKey, nonce, coins) == Ok(e)
  }

  /** The encryption of the body. */
  function BodyCall(p: Primitives, body: bytes, recipients: seq<Recipient>, sender: text, recipientId: text,
                    messageKey: bytes, nonce: bytes): AeadCall
    requires Aad(p, PqDm.HYBRID_SUITE, sender, recipientId, Kids(recipients)).Some?
  {
    AeadCall(messageKey, nonce, body, Aad(p, PqDm.HYBRID_SUITE, sender, recipientId, Kids(recipients)).value)
  }

  lemma SealedFacts(p: Primitives, body: bytes, recipients: seq<Recipient>, sender: text, recipientId: text,
                    messageKey: bytes, nonce: bytes, coins: seq<Coins>, e: Parts) returns (slots: seq<Slot>)
    requires Sealed(p, body, recipients, sender, recipientId, messageKey, nonce, coins, e)
    ensures recipients != [] && AllValid(slots) && |slots| == |recipients|
    ensures forall i :: 0 <= i < |slots| ==>
              SealSlot(p, recipients[i], messageKey, nonce, coins[i]) == Ok(slots[i])
    ensures forall i :: 0 <= i < |slots| ==>
              Utf8.DecodeReplace(slots[i].kid) == recipients[i].keyId && WellPaired(recipients[i].keyId)
    ensures Aad(p, PqDm.HYBRID_SUITE, sender, recipientId, Kids(recipients)).Some?
    ensures e == Parts(Header(sender, recipientId, Kids(recipients)), Pack(slots),
                       nonce + Ciphertext(p, BodyCall(p, body, recipients, sender, recipientId, messageKey, nonce)))
  {
    hide SealSlot, Aad, Header;
    slots := SealSlots(p, recipients, messageKey, nonce, coins).value;
    SealedSlotsValid(p, recipients, messageKey, nonce, coins);
    forall i | 0 <= i < |slots|
      ensures Utf8.DecodeReplace(slots[i].kid) == recipients[i].keyId && WellPaired(recipients[i].keyId)
    {
      SealedKid(p, recipients[i], messageKey, nonce, coins[i]);
    }
  }

  /** What sealing writes, part by part: the header (HeaderFields), one slot for each recipient in order, and the nonce
      before the body's ciphertext under the message key. */
  lemma EnvelopeLayout(p: Primitives, body: bytes, recipients: seq<Recipient>, sender: text, recipientId: text,
                       messageKey: bytes, nonce: bytes, coins: seq<Coins>, e: Parts) returns (slots: seq<Slot>)
    requires Sealed(p, body, recipients, sender, recipientId, messageKey, nonce, coins, e)
    ensures e.header == Header(sender, recipientId, Kids(recipients))
    ensures AllValid(slots) && |slots| == |recipients| && e.slots == Pack(slots)
    ensures forall i :: 0 <= i < |slots| ==>
              && Hex.FromHex(recipients[i].publicHex).Some? && Utf8.Encode(recipients[i].keyId) == Some(slots[i].kid)
              && SealedTo(p, Hex.FromHex(recipients[i].publicHex).value, messageKey, nonce, coins[i], slots[i])
    ensures Aad(p, PqDm.HYBRID_SUITE, sender, recipientId, Kids(recipients)).Some?
    ensures e.blob == nonce + p.aeadSeal(messageKey, nonce, body,
                                         Aad(p, PqDm.HYBRID_SUITE, sender, recipientId, Kids(recipients)).value)
  {
    hide SealParts, SealSlot, Aad, Header, Lawful, Hex.FromHex, Utf8.Encode, SealedTo;
    slots := SealedFacts(p, body, recipients, sender, recipientId, messageKey, nonce, coins, e);
    forall i | 0 <= i < |slots|
      ensures Hex.FromHex(recipients[i].publicHex).Some? && Utf8.Encode(recipients[i].keyId) == Some(slots[i].kid)
      ensures SealedTo(p, Hex.FromHex(recipients[i].publicHex).value, messageKey, nonce, coins[i], slots[i])
    {
      SlotLayout(p, recipients[i], messageKey, nonce, coins[i], slots[i]);
    }
  }

  /** The slot carries the message key under a key derived from a secret encapsulated to this public key. */
  ghost predicate SealedTo(p: Primitives, public: bytes, messageKey: bytes, nonce: bytes, coins: Coins, slot: Slot) {
    && HybridEncap(p, public, coins, HKDF_INFO).Ok?
    && var (encap, shared) := HybridEncap(p, public, coins, HKDF_INFO).value;
       slot.encap == encap
       && slot.wrapped == p.aeadSeal(p.hkdf(KdfInput(shared, [], Ascii("pqdm2-wrap"))), nonce, messageKey, [])
  }

  lemma SlotLayout(p: Primitives, r: Recipient, messageKey: bytes, nonce: bytes, coins: Coins, slot: Slot)
    requires SealSlot(p, r, messageKey, nonce, coins) == Ok(slot)
    ensures Hex.FromHex(r.publicHex).Some? && Utf8.Encode(r.keyId) == Some(slot.kid)
    ensures SealedTo(p, Hex.FromHex(r.publicHex).value, messageKey, nonce, coins, slot)
  {
    hide HybridEncap, Hex.FromHex, Utf8.Encode;
  }

  /** Which error sealing ends with: no recipient; a string without UTF-8 form; otherwise that of the first
      recipient that cannot be sealed to, a key id beyond 255 bytes, a public key that is not hex, or the
      KEM's own. */
  lemma SealingRefuses(p: Primitives, body: bytes, recipients: seq<Recipient>, sender: text, recipientId: text,
                       messageKey: bytes, nonce: bytes, coins: seq<Coins>, i: nat)
    requires Lawful(p) && |messageKey| == SECRET_LEN && |nonce| == NONCE_LEN && |coins| == |recipients|
    ensures var r := SealParts(p, body, recipients, sender, recipientId, messageKey, nonce, coins);
      var aad := Aad(p, PqDm.HYBRID_SUITE, sender, recipientId, Kids(recipients));
      && (recipients == [] ==> r == Err(NoRecipients))
      && (recipients != [] && aad == None ==> r == Err(NotUtf8))
      && (aad.Some? && i < |recipients| && !Acceptable(p, recipients[i], coins[i])
          && (forall j :: 0 <= j < i ==> Acceptable(p, recipients[j], coins[j])) ==>
            r == Err(Refusal(p, recipients[i], coins[i])))
  {
    hide SealSlot, Aad, Acceptable, Envelope, Lawful, SealSlots, Refusal;
    var aad := Aad(p, PqDm.HYBRID_SUITE, sender, recipientId, Kids(recipients));
    if i < |recipients| && !Acceptable(p, recipients[i], coins[i])
       && forall j :: 0 <= j < i ==> Acceptable(p, recipients[j], coins[j]) {
      FirstRefusal(p, recipients, messageKey, nonce, coins, i);
    }
  }

  function Refusal(p: Primitives, r: Recipient, coins: Coins): SealError {
    match Utf8.Encode(r.keyId)
    case None => NotUtf8
    case Some(kid) =>
      if |kid| > 255 then KeyIdTooLong
      else match Hex.FromHex(r.publicHex)
        case None => BadHex
        case Some(public) =>
          if |public| != 1216 then Kem(Format)
          else if p.xExchange(coins.ephemeral, public[..32]) == None then Kem(Exchange)
          else Kem(Format)
  }

  lemma FirstRefusal(p: Primitives, recipients: seq<Recipient>, messageKey: bytes, nonce: bytes, coins: seq<Coins>, i: nat)
    requires |coins| == |recipients| && i < |recipients| && !Acceptable(p, recipients[i], coins[i])
    requires forall j :: 0 <= j < i ==> Acceptable(p, recipients[j], coins[j])
    ensures SealSlots(p, recipients, messageKey, nonce, coins) == Err(Refusal(p, recipients[i], coins[i]))
  {
    hide SealSlot, Acceptable, Refusal;
    var front, first := recipients[..i], recipients[..i + 1];
    SlotsAccept(p, front, messageKey, nonce, coins[..i]);
    SlotRefused(p, recipients[i], messageKey, nonce, coins[i]);
    assert first[..i] == front && coins[..i + 1][..i] == coins[..i];
    FirstErrorWins(p, recipients, messageKey, nonce, coins, i + 1);
  }

  lemma SlotRefused(p: Primitives, r: Recipient, messageKey: bytes, nonce: bytes, coins: Coins)
    requires !Acceptable(p, r, coins)
    ensures SealSlot(p, r, messageKey, nonce, coins) == Err(Refusal(p, r, coins))
  {
    hide Utf8.Encode, Hex.FromHex;
    if Hex.FromHex(r.publicHex).Some? {
      EncapAccepts(p, Hex.FromHex(r.publicHex).value, coins, HKDF_INFO);
    }
    hide HybridEncap;
  }

  /** When sealing succeeds: there is a recipient, all strings have a UTF-8 form, no key id exceeds 255
      bytes, and every public key reads as hex and can be encapsulated to. Nothing else is refused. */
  lemma SealingAccepts(p: Primitives, body: bytes, recipients: seq<Recipient>, sender: text, recipientId: text,
                       messageKey: bytes, nonce: bytes, coins: seq<Coins>)
    requires Lawful(p) && |messageKey| == SECRET_LEN && |nonce| == NONCE_LEN && |coins| == |recipients|
    ensures SealParts(p, body, recipients, sender, recipientId, messageKey, nonce, coins).Ok?
       <==> && recipients != [] && Utf8.IsScalarText(sender) && Utf8.IsScalarText(recipientId)
            && (forall i :: 0 <= i < |recipients| ==> Acceptable(p, recipients[i], coins[i]))
  {
    hide SealSlot, Envelope, Acceptable;
    Utf8.EncodeSucceeds(sender);
    Utf8.EncodeSucceeds(recipientId);
    Utf8.EncodeAscii(Ascii("x25519-mlkem768"));
    SlotsAccept(p, recipients, messageKey, nonce, coins);
    var kids := Kids(recipients);
    if forall i :: 0 <= i < |recipients| ==> Acceptable(p, recipients[i], coins[i]) {
      forall i | 0 <= i < |kids|
        ensures Utf8.IsScalarText(kids[i])
      {
        AcceptableKid(p, recipients[i], coins[i]);
      }
      JoinedScalar(kids);
      Utf8.EncodeSucceeds(JoinedKids(kids));
    }
  }

  ghost predicate Acceptable(p: Primitives, r: Recipient, coins: Coins) {
    && Utf8.Encode(r.keyId).Some? && |Utf8.Encode(r.keyId).value| <= 255
    && Hex.FromHex(r.publicHex).Some?
    && HybridEncap(p, Hex.FromHex(r.publicHex).value, coins, HKDF_INFO).Ok?
  }

  lemma AcceptableKid(p: Primitives, r: Recipient, coins: Coins)
    requires Acceptable(p, r, coins)
    ensures Utf8.IsScalarText(r.keyId)
  {
    Utf8.EncodeSucceeds(r.keyId);
  }

  lemma {:induction false} SlotsAccept(p: Primitives, recipients: seq<Recipient>, messageKey: bytes, nonce: bytes,
                                       coins: seq<Coins>)
    requires |coins| == |recipients|
    ensures SealSlots(p, recipients, messageKey, nonce, coins).Ok?
       <==> forall i :: 0 <= i < |recipients| ==> Acceptable(p, recipients[i], coins[i])
  {
    var n := |recipients| - 1;
    if n >= 0 {
      hide SealSlot, Acceptable;
      SlotAccepts(p, recipients[n], messageKey, nonce, coins[n]);
      SlotsAccept(p, recipients[..n], messageKey, nonce, coins[..n]);
      LastSlot(p, recipients, messageKey, nonce, coins);
      hide SealSlots;
      assert forall i :: 0 <= i < n ==> recipients[..n][i] == recipients[i] && coins[..n][i] == coins[i];
    }
  }

  lemma LastSlot(p: Primitives, recipients: seq<Recipient>, messageKey: bytes, nonce: bytes, coins: seq<Coins>)
    requires |coins| == |recipients| > 0
    ensures var n := |recipients| - 1;
      SealSlots(p, recipients, messageKey, nonce, coins).Ok?
      <==> SealSlots(p, recipients[..n], messageKey, nonce, coins[..n]).Ok?
           && SealSlot(p, recipients[n], messageKey, nonce, coins[n]).Ok?
  {
    hide SealSlot;
  }

  lemma SlotAccepts(p: Primitives, r: Recipient, messageKey: bytes, nonce: bytes, coins: Coins)
    ensures SealSlot(p, r, messageKey, nonce, coins).Ok? <==> Acceptable(p, r, coins)
  {
    hide HybridEncap, Utf8.Encode, Hex.FromHex;
  }

  lemma {:induction false} JoinScalar(ts: seq<text>)
    requires forall i :: 0 <= i < |ts| ==> Utf8.IsScalarText(ts[i])
    ensures Utf8.IsScalarText(Join(ts))
  {
    if ts != [] {
      JoinScalar(ts[1..]);
    }
  }

  lemma JoinedScalar(kids: seq<text>)
    requires forall i :: 0 <= i < |kids| ==> Utf8.IsScalarText(kids[i])
    ensures Utf8.IsScalarText(JoinedKids(kids))
  {
    hide Utf8.IsScalarText;
    SortPermutes(kids, LexLeq);
    var sorted := SortTexts(kids);
    forall i | 0 <= i < |sorted|
      ensures Utf8.IsScalarText(sorted[i])
    {
      assert sorted[i] in multiset(sorted);
      assert sorted[i] in kids;
    }
    JoinScalar(sorted);
  }

  // ---- the reach of the scan ----

  /** Bytes behind the first matching record change nothing, whatever they are. */
  lemma ScanStopsAtMatch(p: Primitives, header: Json, blob: bytes, ss: seq<Slot>, tail: bytes,
                         keyId: text, private: bytes, aad: bytes)
    requires AllValid(ss) && FirstMatch(ss, keyId) < |ss|
    ensures OpenParts(p, Parts(header, Pack(ss) + tail, blob), keyId, private, aad)
         == OpenSlot(p, ss[FirstMatch(ss, keyId)].encap, ss[FirstMatch(ss, keyId)].wrapped, private,
                     Take(blob, NONCE_LEN), Drop(blob, NONCE_LEN), aad)
  {
    hide OpenSlot, FirstMatch;
    ParsePacked(ss, tail);
    FirstMatchPrefix(ss, ParseSlots(tail).records, keyId);
    FirstMatchBound(ss, ParseSlots(tail).records, keyId);
  }

  lemma FirstMatchBound(ss: seq<Slot>, tt: seq<Slot>, keyId: text)
    requires FirstMatch(ss, keyId) < |ss|
    ensures FirstMatch(ss, keyId) < |ss + tt| && (ss + tt)[FirstMatch(ss, keyId)] == ss[FirstMatch(ss, keyId)]
  {
  }

  /** What opening a token takes: a text that parses and a private key that reads as hex; the envelope then
      decides, and without either nothing opens. */
  lemma OpenNeedsTokenAndKey(p: Primitives, token: text, keyId: text, privateHex: text, sender: text, recipientId: text)
    ensures OpenMultiSpec(p, token, keyId, privateHex, sender, recipientId).Some? ==>
              && ParseToken(token).Some? && Hex.FromHex(privateHex).Some?
              && OpenMultiSpec(p, token, keyId, privateHex, sender, recipientId)
                 == OpenEnvelope(p, ParseToken(token).value, keyId, Hex.FromHex(privateHex).value, sender, recipientId)
  {
    hide ParseToken, OpenEnvelope, Hex.FromHex;
  }

  /** No token opens for a device whose key id none of its whole records carries. */
  lemma NoSlotNoBody(p: Primitives, token: text, keyId: text, privateHex: text, sender: text, recipientId: text)
    requires ParseToken(token).Some? ==>
               forall s :: s in ParseSlots(ParseToken(token).value.slots).records ==> Utf8.DecodeReplace(s.kid) != keyId
    ensures OpenMultiSpec(p, token, keyId, privateHex, sender, recipientId) == None
  {
    hide ParseToken, HeaderAad, OpenSlot, Hex.FromHex, ParseSlots, Utf8.DecodeReplace;
    if ParseToken(token).Some? {
      var records := ParseSlots(ParseToken(token).value.slots).records;
      NoMatch(records, keyId);
    }
  }

  lemma {:induction false} NoMatch(records: seq<Slot>, keyId: text)
    requires forall s :: s in records ==> Utf8.DecodeReplace(s.kid) != keyId
    ensures FirstMatch(records, keyId) == |records|
  {
    if records != [] {
      NoMatch(records[1..], keyId);
    }
  }

  // ---- what the AAD binds ----

  /** The order in which recipients are listed does not matter. */
  lemma AadOrderFree(p: Primitives, suite: text, sender: text, recipient: text, kids: seq<text>, kids': seq<text>)
    requires multiset(kids) == multiset(kids')
    ensures Aad(p, suite, sender, recipient, kids) == Aad(p, suite, sender, recipient, kids')
  {
    SortTextsCanonical(kids, kids');
  }

  /** Two slot sets with different joined strings and one digest. */
  ghost predicate KidsCollide(p: Primitives, kids: seq<text>, kids': seq<text>) {
    match (Utf8.Encode(JoinedKids(kids)), Utf8.Encode(JoinedKids(kids')))
    case (Some(b), Some(b')) => ShaCollision(p, b, b')
    case _ => false
  }

  lemma SameDigest(p: Primitives, kids: seq<text>, kids': seq<text>)
    requires KidDigest(p, kids).Some? && KidDigest(p, kids) == KidDigest(p, kids')
    ensures JoinedKids(kids) == JoinedKids(kids') || KidsCollide(p, kids, kids')
  {
    hide Utf8.Encode, JoinedKids;
    if Utf8.Encode(JoinedKids(kids)) == Utf8.Encode(JoinedKids(kids')) {
      Utf8.EncodeInjective(JoinedKids(kids), JoinedKids(kids'));
    }
  }

  /** The three strings as the AAD sees them. */
  function Parties(suite: text, sender: text, recipient: text): text {
    suite + [PIPE] + sender + [PIPE] + recipient
  }

  lemma EncodeParties(suite: text, sender: text, recipient: text)
    ensures Utf8.Encode(Parties(suite, sender, recipient))
         == match (Utf8.Encode(suite), Utf8.Encode(sender), Utf8.Encode(recipient))
            case (Some(s), Some(f), Some(t)) => Some(s + [PIPE] + f + [PIPE] + t)
            case _ => None
  {
    hide Utf8.Encode;
    Utf8.EncodeAscii([PIPE]);
    Utf8.EncodeAppend(suite, [PIPE]);
    Utf8.EncodeAppend(suite + [PIPE], sender);
    Utf8.EncodeAppend(suite + [PIPE] + sender, [PIPE]);
    Utf8.EncodeAppend(suite + [PIPE] + sender + [PIPE], recipient);
  }

  lemma AadOfParties(p: Primitives, suite: text, sender: text, recipient: text, kids: seq<text>)
    ensures Aad(p, suite, sender, recipient, kids)
         == match (Utf8.Encode(Parties(suite, sender, recipient)), KidDigest(p, kids))
            case (Some(e), Some(d)) => Some(e + [PIPE] + d)
            case _ => None
  {
    hide Utf8.Encode, KidDigest, Parties;
    EncodeParties(suite, sender, recipient);
  }

  /** The AAD, part by part, with the key ids in ascending order: the UTF-8 forms of suite, sender and
      recipient and the digest, with '|' between them. There is none exactly where one of the strings has
      no UTF-8 form. */
  lemma AadLayout(p: Primitives, suite: text, sender: text, recipient: text, kids: seq<text>, ascending: seq<text>)
    requires Sorted(ascending, LexLeq) && multiset(ascending) == multiset(kids)
    ensures Aad(p, suite, sender, recipient, kids)
         == match (Utf8.Encode(suite), Utf8.Encode(sender), Utf8.Encode(recipient), Utf8.Encode(Join(ascending)))
            case (Some(s), Some(f), Some(t), Some(k)) =>
              Some(s + Ascii("|") + f + Ascii("|") + t + Ascii("|") + p.sha256(k))
            case _ => None
  {
    hide Utf8.Encode, LexLeq;
    SortTextsAscending(kids);
    assert JoinedKids(kids) == Join(ascending);
    assert Ascii("|") == [PIPE];
  }

  /** Exactly what the AAD distinguishes, for all strings: the three strings joined by '|', and the
      digest. */
  lemma AadExact(p: Primitives, suite: text, sender: text, recipient: text, kids: seq<text>,
                 suite': text, sender': text, recipient': text, kids': seq<text>)
    requires Lawful(p) && Aad(p, suite, sender, recipient, kids).Some?
    ensures Aad(p, suite, sender, recipient, kids) == Aad(p, suite', sender', recipient', kids')
       <==> && Parties(suite, sender, recipient) == Parties(suite', sender', recipient')
            && KidDigest(p, kids) == KidDigest(p, kids')
  {
    hide Utf8.Encode, Parties, Aad, JoinedKids;
    AadOfParties(p, suite, sender, recipient, kids);
    AadOfParties(p, suite', sender', recipient', kids');
    var e, e' := Parties(suite, sender, recipient), Parties(suite', sender', recipient');
    if Utf8.Encode(e').Some? && KidDigest(p, kids').Some? {
      CutDigest(Utf8.Encode(e).value, KidDigest(p, kids).value, Utf8.Encode(e').value, KidDigest(p, kids').value);
      if Utf8.Encode(e) == Utf8.Encode(e') {
        Utf8.EncodeInjective(e, e');
      }
    }
  }

  lemma CutDigest(e: bytes, d: bytes, e': bytes, d': bytes)
    requires |d| == |d'|
    ensures e + [PIPE] + d == e' + [PIPE] + d' <==> e == e' && d == d'
  {
    var a, a' := e + [PIPE] + d, e' + [PIPE] + d';
    if a == a' {
      assert |e| == |e'|;
      assert a[..|e|] == e && a'[..|e|] == e' && a[|e| + 1..] == d && a'[|e| + 1..] == d';
    }
  }

  lemma DigestOfAad(p: Primitives, suite: text, sender: text, recipient: text, kids: seq<text>)
    requires Aad(p, suite, sender, recipient, kids).Some?
    ensures KidDigest(p, kids).Some?
  {
    hide Utf8.Encode, KidDigest;
  }

  /** Equal AADs: the joined parties are equal, and the joined key ids are, or SHA-256 collides. */
  lemma AadShows(p: Primitives, suite: text, sender: text, recipient: text, kids: seq<text>,
                 suite': text, sender': text, recipient': text, kids': seq<text>)
    requires Lawful(p) && Aad(p, suite, sender, recipient, kids).Some?
    requires Aad(p, suite, sender, recipient, kids) == Aad(p, suite', sender', recipient', kids')
    ensures Parties(suite, sender, recipient) == Parties(suite', sender', recipient')
    ensures JoinedKids(kids) == JoinedKids(kids') || KidsCollide(p, kids, kids')
  {
    hide Aad, KidDigest, JoinedKids, Parties, KidsCollide;
    AadExact(p, suite, sender, recipient, kids, suite', sender', recipient', kids');
    DigestOfAad(p, suite, sender, recipient, kids);
    SameDigest(p, kids, kids');
  }

  /** Between the same two parties the AAD determines the suite and the joined key ids. */
  lemma AadBindsSuiteAndSlots(p: Primitives, suite: text, suite': text, sender: text, recipient: text,
                              kids: seq<text>, kids': seq<text>)
    requires Lawful(p) && Aad(p, suite, sender, recipient, kids).Some?
    requires Aad(p, suite, sender, recipient, kids) == Aad(p, suite', sender, recipient, kids')
    ensures suite == suite'
    ensures JoinedKids(kids) == JoinedKids(kids') || KidsCollide(p, kids, kids')
  {
    hide Aad, JoinedKids, KidsCollide;
    AadShows(p, suite, sender, recipient, kids, suite', sender, recipient, kids');
    SameParties(suite, suite', sender, recipient);
  }

  lemma SameParties(suite: text, suite': text, sender: text, recipient: text)
    ensures Parties(suite, sender, recipient) == Parties(suite', sender, recipient) <==> suite == suite'
  {
    var e, e' := Parties(suite, sender, recipient), Parties(suite', sender, recipient);
    if e == e' {
      assert |suite| == |suite'| && e[..|suite|] == suite && e'[..|suite|] == suite';
    }
  }

  /** Two conversations that agree in the joined strings share their AAD. */
  lemma AadSharedByParties(p: Primitives, suite: text, sender: text, recipient: text, kids: seq<text>,
                           suite': text, sender': text, recipient': text)
    requires Lawful(p) && Aad(p, suite, sender, recipient, kids).Some?
    requires Parties(suite, sender, recipient) == Parties(suite', sender', recipient')
    ensures Aad(p, suite', sender', recipient', kids) == Aad(p, suite, sender, recipient, kids)
  {
    hide Aad, KidDigest, Parties;
    AadExact(p, suite, sender, recipient, kids, suite', sender', recipient', kids);
  }

  /** Wherever a '|' stands in the sender or the recipient, there is another pair of parties with the
      same AAD. */
  lemma AadPipeAmbiguous(p: Primitives, suite: text, sender: text, recipient: text, kids: seq<text>)
    returns (sender': text, recipient': text)
    requires Lawful(p) && Aad(p, suite, sender, recipient, kids).Some?
    requires PIPE in sender || PIPE in recipient
    ensures sender' != sender && recipient' != recipient
    ensures Aad(p, suite, sender', recipient', kids) == Aad(p, suite, sender, recipient, kids)
  {
    hide Aad;
    if PIPE in sender {
      var n := IndexOf<codepoint>(sender, PIPE);
      sender', recipient' := sender[..n], sender[n + 1..] + [PIPE] + recipient;
      assert sender == sender' + [PIPE] + sender[n + 1..];
    } else {
      var n := IndexOf<codepoint>(recipient, PIPE);
      sender', recipient' := sender + [PIPE] + recipient[..n], recipient[n + 1..];
      assert recipient == recipient[..n] + [PIPE] + recipient';
    }
    assert |sender'| != |sender| && |recipient'| != |recipient|;
    assert Parties(suite, sender, recipient) == Parties(suite, sender', recipient');
    AadSharedByParties(p, suite, sender, recipient, kids, suite, sender', recipient');
  }

  /** Under a given suite and slot set, the AAD determines the two parties exactly when neither of them
      contains a '|'. */
  lemma PartiesBoundExactly(p: Primitives, suite: text, sender: text, recipient: text, kids: seq<text>)
    requires Lawful(p) && Aad(p, suite, sender, recipient, kids).Some?
    ensures (forall s', r' :: Aad(p, suite, s', r', kids) == Aad(p, suite, sender, recipient, kids) ==>
               s' == sender && r' == recipient)
       <==> PIPE !in sender && PIPE !in recipient
  {
    hide Aad;
    if PIPE in sender || PIPE in recipient {
      var s', r' := AadPipeAmbiguous(p, suite, sender, recipient, kids);
    } else {
      forall s': text, r': text | Aad(p, suite, s', r', kids) == Aad(p, suite, sender, recipient, kids)
        ensures s' == sender && r' == recipient
      {
        AadShows(p, suite, sender, recipient, kids, suite, s', r', kids);
        var f, f' := sender + [PIPE] + recipient, s' + [PIPE] + r';
        assert Parties(suite, sender, recipient)[|suite| + 1..] == f && Parties(suite, s', r')[|suite| + 1..] == f';
        CutAtOnlySeparator<codepoint>(sender, recipient, s', r', PIPE);
      }
    }
  }

  /** The AAD determines suite, sender and recipient exactly when none of them contains a '|'; it
      determines the joined key ids always, short of a SHA-256 collision. */
  lemma AadBindsEverything(p: Primitives, suite: text, sender: text, recipient: text, kids: seq<text>)
    requires Lawful(p) && Aad(p, suite, sender, recipient, kids).Some?
    ensures (forall u', s', r', ks' :: Aad(p, u', s', r', ks') == Aad(p, suite, sender, recipient, kids) ==>
               u' == suite && s' == sender && r' == recipient)
       <==> PIPE !in suite && PIPE !in sender && PIPE !in recipient
    ensures forall u', s', r', ks' :: Aad(p, u', s', r', ks') == Aad(p, suite, sender, recipient, kids) ==>
              JoinedKids(kids) == JoinedKids(ks') || KidsCollide(p, kids, ks')
  {
    hide Aad, JoinedKids, KidsCollide, Parties;
    forall u', s', r', ks' | Aad(p, u', s', r', ks') == Aad(p, suite, sender, recipient, kids)
      ensures Parties(u', s', r') == Parties(suite, sender, recipient)
      ensures JoinedKids(kids) == JoinedKids(ks') || KidsCollide(p, kids, ks')
    {
      AadShows(p, suite, sender, recipient, kids, u', s', r', ks');
    }
    if PIPE in suite {
      var u', s', r' := SplitSuite(suite, sender, recipient);
      AadSharedByParties(p, suite, sender, recipient, kids, u', s', r');
    } else if PIPE in sender || PIPE in recipient {
      var s', r' := AadPipeAmbiguous(p, suite, sender, recipient, kids);
    } else {
      forall u', s', r' | Parties(u', s', r') == Parties(suite, sender, recipient)
        ensures u' == suite && s' == sender && r' == recipient
      {
        PartsOfParties(suite, sender, recipient, u', s', r');
      }
    }
  }

  lemma PartsOfParties(suite: text, sender: text, recipient: text, suite': text, sender': text, recipient': text)
    requires PIPE !in suite && PIPE !in sender && PIPE !in recipient
    requires Parties(suite, sender, recipient) == Parties(suite', sender', recipient')
    ensures suite == suite' && sender == sender' && recipient == recipient'
  {
    CutAtOnlySeparators<codepoint>(suite, sender, recipient, suite', sender', recipient', PIPE);
  }

  lemma SplitSuite(suite: text, sender: text, recipient: text) returns (suite': text, sender': text, recipient': text)
    requires PIPE in suite
    ensures suite' != suite && Parties(suite', sender', recipient') == Parties(suite, sender, recipient)
  {
    var n := IndexOf<codepoint>(suite, PIPE);
    suite', sender', recipient' := suite[..n], suite[n + 1..], sender + [PIPE] + recipient;
    assert suite == suite' + [PIPE] + sender';
    assert |suite'| != |suite|;
  }

  /** Among conversations whose suite and sender are free of '|', whatever their recipients contain, the
      AAD determines all four fields. */
  lemma AadBindsPipeFreeSenders(p: Primitives, suite: text, sender: text, recipient: text, kids: seq<text>,
                                suite': text, sender': text, recipient': text, kids': seq<text>)
    requires Lawful(p) && Aad(p, suite, sender, recipient, kids).Some?
    requires PIPE !in suite && PIPE !in sender && PIPE !in suite' && PIPE !in sender'
    requires Aad(p, suite, sender, recipient, kids) == Aad(p, suite', sender', recipient', kids')
    ensures suite == suite' && sender == sender' && recipient == recipient'
    ensures JoinedKids(kids) == JoinedKids(kids') || KidsCollide(p, kids, kids')
  {
    hide Aad, JoinedKids, KidsCollide;
    AadShows(p, suite, sender, recipient, kids, suite', sender', recipient', kids');
    var f, f' := sender + [PIPE] + recipient, sender' + [PIPE] + recipient';
    assert Parties(suite, sender, recipient) == suite + [PIPE] + f;
    assert Parties(suite', sender', recipient') == suite' + [PIPE] + f';
    CutAtSeparator<codepoint>(suite, f, suite', f', PIPE);
    CutAtSeparator<codepoint>(sender, recipient, sender', recipient', PIPE);
  }

  // ---- what a sealed body opens under ----

  lemma OpenByDeviceKey(p: Primitives, e: Parts, keyId: text, private: bytes, aad: bytes)
    ensures OpenParts(p, e, keyId, private, aad)
         == match DeviceKey(p, e, keyId, private)
            case None => None
            case Some(key) => p.aeadOpen(key, Take(e.blob, NONCE_LEN), Drop(e.blob, NONCE_LEN), aad)
  {
    hide ParseSlots, FirstMatch, UnwrapSlot, Take, Drop;
  }

  lemma SealedBody(p: Primitives, nonce: bytes, call: AeadCall)
    requires |nonce| == NONCE_LEN
    ensures Take(nonce + Ciphertext(p, call), NONCE_LEN) == nonce
    ensures Drop(nonce + Ciphertext(p, call), NONCE_LEN) == Ciphertext(p, call)
  {
  }

  lemma BodyCallOpens(p: Primitives, body: bytes, recipients: seq<Recipient>, sender: text, recipientId: text,
                      messageKey: bytes, nonce: bytes)
    requires Lawful(p) && |messageKey| == SECRET_LEN && |nonce| == NONCE_LEN
    requires Aad(p, PqDm.HYBRID_SUITE, sender, recipientId, Kids(recipients)).Some?
    ensures var call := BodyCall(p, body, recipients, sender, recipientId, messageKey, nonce);
      p.aeadOpen(messageKey, nonce, Ciphertext(p, call), call.aad) == Some(body)
  {
    hide Aad;
  }

  /** Whatever header and slots surround a sealed body, whoever opens it and under whichever two parties:
      with no key from a slot or no readable header nothing opens. Where suite and parties join to the
      string sealed under, and the key ids to theirs, the message key opens the body, and any other key
      nothing, unless the AEAD accepts the body under that key as well. In all other cases nothing opens,
      unless SHA-256 collides or the AEAD accepts the body, under the very key the device unwrapped, with
      associated data it was not made with. */
  lemma BodyOpensOnlyForItsSlotSet(
      p: Primitives, body: bytes, recipients: seq<Recipient>, sender: text, recipientId: text,
      messageKey: bytes, nonce: bytes, coins: seq<Coins>, e: Parts,
      e': Parts, keyId: text, private: bytes, sender': text, recipientId': text)
    requires Sealed(p, body, recipients, sender, recipientId, messageKey, nonce, coins, e)
    requires e'.blob == e.blob
    ensures Aad(p, PqDm.HYBRID_SUITE, sender, recipientId, Kids(recipients)).Some?
    ensures var kids := Kids(recipients);
      var call := BodyCall(p, body, recipients, sender, recipientId, messageKey, nonce);
      var r := OpenEnvelope(p, e', keyId, private, sender', recipientId');
      match (DeviceKey(p, e', keyId, private), HeaderClaims(e'.header))
      case (Some(key), Some((suite', kids'))) =>
        if Parties(suite', sender', recipientId') == Parties(PqDm.HYBRID_SUITE, sender, recipientId)
           && JoinedKids(kids') == JoinedKids(kids)
        then if key == messageKey then r == Some(body) else r == None || CrossKeyOpen(p, call, key)
        else || r == None
             || KidsCollide(p, kids, kids')
             || (Aad(p, suite', sender', recipientId', kids').Some?
                 && OpensForeign(p, call, key, Aad(p, suite', sender', recipientId', kids').value))
      case _ => r == None
  {
    hide SealParts, SealSlot, Aad, Header, HeaderClaims, JoinedKids, Lawful, OpenParts, DeviceKey, KidsCollide, Parties,
         KidDigest, Take, Drop;
    var slots := SealedFacts(p, body, recipients, sender, recipientId, messageKey, nonce, coins, e);
    var kids := Kids(recipients);
    var call := BodyCall(p, body, recipients, sender, recipientId, messageKey, nonce);
    SealedBody(p, nonce, call);
    BodyCallOpens(p, body, recipients, sender, recipientId, messageKey, nonce);
    if HeaderClaims(e'.header).Some? {
      var (suite', kids') := HeaderClaims(e'.header).value;
      SameJoinedSameDigest(p, kids, kids');
      AadExact(p, PqDm.HYBRID_SUITE, sender, recipientId, kids, suite', sender', recipientId', kids');
      if Aad(p, suite', sender', recipientId', kids').Some? {
        var aad' := Aad(p, suite', sender', recipientId', kids').value;
        OpenByDeviceKey(p, e', keyId, private, aad');
        if aad' == call.aad {
          AadShows(p, PqDm.HYBRID_SUITE, sender, recipientId, kids, suite', sender', recipientId', kids');
        }
      }
    }
  }

  lemma SameJoinedSameDigest(p: Primitives, kids: seq<text>, kids': seq<text>)
    ensures JoinedKids(kids) == JoinedKids(kids') ==> KidDigest(p, kids) == KidDigest(p, kids')
  {
    hide Utf8.Encode, JoinedKids;
  }

  /** In these slots the first record with the recipient's key id is the one sealed to it. */
  ghost predicate OwnSlotFirst(p: Primitives, records: seq<Slot>, r: Recipient, messageKey: bytes, nonce: bytes, coins: Coins) {
    var n := FirstMatch(records, r.keyId);
    n < |records| && Ok(records[n]) == SealSlot(p, r, messageKey, nonce, coins)
  }

  /** A recipient's device: the private key belongs to the public key it was sealed to. */
  ghost predicate IsDeviceOf(p: Primitives, r: Recipient, private: bytes) {
    Hex.FromHex(r.publicHex).Some? && IsKeyPair(p, Hex.FromHex(r.publicHex).value, private)
  }

  lemma KeyOfOwnSlot(p: Primitives, records: seq<Slot>, r: Recipient, messageKey: bytes, nonce: bytes, coins: Coins,
                     private: bytes)
    requires Lawful(p) && |messageKey| == SECRET_LEN && |nonce| == NONCE_LEN
    requires OwnSlotFirst(p, records, r, messageKey, nonce, coins) && IsDeviceOf(p, r, private)
    ensures RecordsKey(p, records, r.keyId, private, nonce) == Some(messageKey)
  {
    hide SealSlot, UnwrapSlot, FirstMatch, IsKeyPair, Hex.FromHex;
    UnwrapOwnSlot(p, r, messageKey, nonce, coins, private);
  }

  /** Slot-set binding, exactly. A device whose own slot is in place, with the parties sealed under, and
      with any header and any other slots around the body: if the header's suite is the sealed one and its
      key ids join to the same string, the body opens; otherwise nothing does, short of a SHA-256 collision
      or an AEAD forgery under the message key. */
  lemma DeviceOpensExactly(
      p: Primitives, body: bytes, recipients: seq<Recipient>, sender: text, recipientId: text,
      messageKey: bytes, nonce: bytes, coins: seq<Coins>, e: Parts, e': Parts, i: nat, private: bytes)
    requires Sealed(p, body, recipients, sender, recipientId, messageKey, nonce, coins, e)
    requires i < |recipients| && IsDeviceOf(p, recipients[i], private) && e'.blob == e.blob
    requires OwnSlotFirst(p, ParseSlots(e'.slots).records, recipients[i], messageKey, nonce, coins[i])
    ensures Aad(p, PqDm.HYBRID_SUITE, sender, recipientId, Kids(recipients)).Some?
    ensures var kids := Kids(recipients);
      var call := BodyCall(p, body, recipients, sender, recipientId, messageKey, nonce);
      var r := OpenEnvelope(p, e', recipients[i].keyId, private, sender, recipientId);
      match HeaderClaims(e'.header)
      case None => r == None
      case Some((suite', kids')) =>
        if suite' == PqDm.HYBRID_SUITE && JoinedKids(kids') == JoinedKids(kids) then r == Some(body)
        else || r == None
             || KidsCollide(p, kids, kids')
             || (Aad(p, suite', sender, recipientId, kids').Some?
                 && OpensForeign(p, call, messageKey, Aad(p, suite', sender, recipientId, kids').value))
  {
    hide SealParts, SealSlot, Aad, Header, HeaderClaims, JoinedKids, Lawful, OpenEnvelope, RecordsKey, KidsCollide, Parties,
         OwnSlotFirst, IsDeviceOf, ParseSlots, Take, Drop;
    var slots := SealedFacts(p, body, recipients, sender, recipientId, messageKey, nonce, coins, e);
    SealedBody(p, nonce, BodyCall(p, body, recipients, sender, recipientId, messageKey, nonce));
    KeyOfOwnSlot(p, ParseSlots(e'.slots).records, recipients[i], messageKey, nonce, coins[i], private);
    BodyOpensOnlyForItsSlotSet(p, body, recipients, sender, recipientId, messageKey, nonce, coins, e,
                               e', recipients[i].keyId, private, sender, recipientId);
    if HeaderClaims(e'.header).Some? {
      SameParties(HeaderClaims(e'.header).value.0, PqDm.HYBRID_SUITE, sender, recipientId);
    }
  }

  /** The outcome for whole tokens, with any key ids that join to the sealed string and any slots: with no
      key from the first matching slot nothing opens, with the message key the body does, and with any other
      key nothing, unless the AEAD accepts the body under that key as well. */
  lemma TamperedTokenOpens(
      p: Primitives, body: bytes, recipients: seq<Recipient>, sender: text, recipientId: text,
      messageKey: bytes, nonce: bytes, coins: seq<Coins>, e: Parts,
      kids': seq<text>, slots': seq<Slot>, keyId: text, privateHex: text)
    requires Sealed(p, body, recipients, sender, recipientId, messageKey, nonce, coins, e)
    requires Hex.FromHex(privateHex).Some? && AllValid(slots')
    requires JoinedKids(kids') == JoinedKids(Kids(recipients)) && forall k :: 0 <= k < |kids'| ==> WellPaired(kids'[k])
    ensures Aad(p, PqDm.HYBRID_SUITE, sender, recipientId, Kids(recipients)).Some?
    ensures var token := Token(Parts(Header(sender, recipientId, kids'), Pack(slots'), e.blob));
      var r := OpenMultiSpec(p, token, keyId, privateHex, sender, recipientId);
      match RecordsKey(p, slots', keyId, Hex.FromHex(privateHex).value, nonce)
      case None => r == None
      case Some(key) =>
        if key == messageKey then r == Some(body)
        else r == None || CrossKeyOpen(p, BodyCall(p, body, recipients, sender, recipientId, messageKey, nonce), key)
  {
    hide SealParts, SealSlot, Aad, Token, ParseToken, Header, HeaderClaims, JoinedKids, Lawful, OpenEnvelope, KidsCollide,
         RecordsKey, Hex.FromHex, WellFormed, PairJson, WellPaired, Take, Parties, CrossKeyOpen;
    var slots := SealedFacts(p, body, recipients, sender, recipientId, messageKey, nonce, coins, e);
    var e' := Parts(Header(sender, recipientId, kids'), Pack(slots'), e.blob);
    SealedBody(p, nonce, BodyCall(p, body, recipients, sender, recipientId, messageKey, nonce));
    HeaderWellFormed(sender, recipientId, kids');
    ParseTokenOf(e');
    ClaimsOfHeader(sender, recipientId, kids');
    SlotCodec(slots', Pack(slots'));
    BodyOpensOnlyForItsSlotSet(p, body, recipients, sender, recipientId, messageKey, nonce, coins, e,
                               e'.(header := PairJson(e'.header)), keyId, Hex.FromHex(privateHex).value, sender, recipientId);
  }

  /** The sealed token itself, for any key id and any private key: the first slot with the key id decides. */
  lemma SealedTokenOpens(
      p: Primitives, body: bytes, recipients: seq<Recipient>, sender: text, recipientId: text,
      messageKey: bytes, nonce: bytes, coins: seq<Coins>, e: Parts, j: nat, privateHex: text) returns (slot: Slot)
    requires Sealed(p, body, recipients, sender, recipientId, messageKey, nonce, coins, e)
    requires Hex.FromHex(privateHex).Some?
    requires j < |recipients| && forall l :: 0 <= l < j ==> recipients[l].keyId != recipients[j].keyId
    ensures SealSlot(p, recipients[j], messageKey, nonce, coins[j]) == Ok(slot)
    ensures Aad(p, PqDm.HYBRID_SUITE, sender, recipientId, Kids(recipients)).Some?
    ensures var r := OpenMultiSpec(p, Token(e), recipients[j].keyId, privateHex, sender, recipientId);
      match UnwrapSlot(p, slot.encap, slot.wrapped, Hex.FromHex(privateHex).value, nonce)
      case None => r == None
      case Some(key) =>
        if key == messageKey then r == Some(body)
        else r == None || CrossKeyOpen(p, BodyCall(p, body, recipients, sender, recipientId, messageKey, nonce), key)
  {
    hide SealParts, SealSlot, OpenMultiSpec, Aad, Token, Header, JoinedKids, Hex.FromHex, Lawful, FirstMatch,
         Utf8.DecodeReplace, WellPaired, UnwrapSlot, CrossKeyOpen;
    var slots := SealedFacts(p, body, recipients, sender, recipientId, messageKey, nonce, coins, e);
    slot := slots[j];
    MatchAt(slots, j, recipients[j].keyId);
    TamperedTokenOpens(p, body, recipients, sender, recipientId, messageKey, nonce, coins, e,
                       Kids(recipients), slots, recipients[j].keyId, privateHex);
  }

  /** End to end: every body comes out of the token, for every recipient whose slot is the first with
      its key id, under the same two parties. */
  lemma FanoutOpens(p: Primitives, body: bytes, recipients: seq<Recipient>, sender: text, recipientId: text,
                    messageKey: bytes, nonce: bytes, coins: seq<Coins>, e: Parts, i: nat, privateHex: text)
    requires Sealed(p, body, recipients, sender, recipientId, messageKey, nonce, coins, e)
    requires i < |recipients| && forall j :: 0 <= j < i ==> recipients[j].keyId != recipients[i].keyId
    requires Hex.FromHex(privateHex).Some? && IsDeviceOf(p, recipients[i], Hex.FromHex(privateHex).value)
    ensures OpenMultiSpec(p, Token(e), recipients[i].keyId, privateHex, sender, recipientId) == Some(body)
  {
    hide SealParts, SealSlot, OpenMultiSpec, Aad, Token, IsKeyPair, Hex.FromHex, Lawful, UnwrapSlot, CrossKeyOpen;
    var slot := SealedTokenOpens(p, body, recipients, sender, recipientId, messageKey, nonce, coins, e, i, privateHex);
    UnwrapOwnSlot(p, recipients[i], messageKey, nonce, coins[i], Hex.FromHex(privateHex).value);
  }

  /** A recipient whose key id an earlier recipient j has as well, j being the first: its own slot is never
      looked at. It gets the body exactly if its private key leads to the wrap key of j's slot; if the KEM
      refuses that slot it gets nothing, and otherwise nothing, unless the AEAD accepts j's wrapped key under
      a second key. */
  lemma ShadowedOpensExactly(
      p: Primitives, body: bytes, recipients: seq<Recipient>, sender: text, recipientId: text,
      messageKey: bytes, nonce: bytes, coins: seq<Coins>, e: Parts, j: nat, i: nat, privateHex: text) returns (slot: Slot)
    requires Sealed(p, body, recipients, sender, recipientId, messageKey, nonce, coins, e)
    requires j < i < |recipients| && recipients[i].keyId == recipients[j].keyId
    requires forall l :: 0 <= l < j ==> recipients[l].keyId != recipients[j].keyId
    requires Hex.FromHex(privateHex).Some?
    ensures SealSlot(p, recipients[j], messageKey, nonce, coins[j]) == Ok(slot)
    ensures var r := OpenMultiSpec(p, Token(e), recipients[i].keyId, privateHex, sender, recipientId);
      var call := SlotCall(p, recipients[j], messageKey, nonce, coins[j]);
      match BoxKey(p, slot.encap, Hex.FromHex(privateHex).value, WRAP_INFO)
      case None => r == None
      case Some(key) => if key == call.key then r == Some(body) else r == None || CrossKeyOpen(p, call, key)
  {
    hide SealParts, SealSlot, OpenMultiSpec, Aad, Token, Hex.FromHex, UnwrapSlot, BoxKey;
    slot := SealedTokenOpens(p, body, recipients, sender, recipientId, messageKey, nonce, coins, e, j, privateHex);
    SlotWrapped(p, recipients[j], messageKey, nonce, coins[j]);
    UnwrapByBox(p, slot.encap, slot.wrapped, Hex.FromHex(privateHex).value, nonce);
  }

  lemma SlotWrapped(p: Primitives, r: Recipient, messageKey: bytes, nonce: bytes, coins: Coins)
    requires Lawful(p) && |messageKey| == SECRET_LEN && |nonce| == NONCE_LEN
    requires SealSlot(p, r, messageKey, nonce, coins).Ok?
    ensures var call := SlotCall(p, r, messageKey, nonce, coins);
      && call.nonce == nonce && call.aad == []
      && SealSlot(p, r, messageKey, nonce, coins).value.wrapped == Ciphertext(p, call)
      && p.aeadOpen(call.key, nonce, Ciphertext(p, call), []) == Some(messageKey)
  {
    hide HybridEncap;
    var shared := HybridEncap(p, Hex.FromHex(r.publicHex).value, coins, HKDF_INFO).value.1;
    assert |p.hkdf(WrapKeyInput(shared))| == SECRET_LEN;
  }

  // ---- tampering with slots and body ----

  /** Flipping the top bit of the X25519 share in a device's slot changes the token and not what the device
      gets from it. */
  lemma FlippedSlotOpens(
      p: Primitives, body: bytes, recipients: seq<Recipient>, sender: text, recipientId: text,
      messageKey: bytes, nonce: bytes, coins: seq<Coins>, e: Parts, i: nat, privateHex: text) returns (slots': seq<Slot>)
    requires MasksTopBit(p) && Sealed(p, body, recipients, sender, recipientId, messageKey, nonce, coins, e)
    requires i < |recipients| && forall j :: 0 <= j < i ==> recipients[j].keyId != recipients[i].keyId
    requires Hex.FromHex(privateHex).Some? && IsDeviceOf(p, recipients[i], Hex.FromHex(privateHex).value)
    ensures AllValid(slots') && |slots'| == |ParseSlots(e.slots).records| == |recipients|
    ensures |ParseSlots(e.slots).records[i].encap| == CIPHERTEXT_LEN
    ensures var slots := ParseSlots(e.slots).records;
      slots' == slots[i := slots[i].(encap := FlipTopBit(slots[i].encap))] && Pack(slots') != e.slots
    ensures OpenMultiSpec(p, Token(e.(slots := Pack(slots'))), recipients[i].keyId, privateHex, sender, recipientId) == Some(body)
  {
    hide SealParts, SealSlot, OpenMultiSpec, Aad, Token, Header, JoinedKids, IsKeyPair, Hex.FromHex, Lawful, FirstMatch,
         Utf8.DecodeReplace, WellPaired, UnwrapSlot, CrossKeyOpen, Pack, FlipTopBit, MasksTopBit;
    var slots := SealedFacts(p, body, recipients, sender, recipientId, messageKey, nonce, coins, e);
    SlotCodec(slots, e.slots);
    UnwrapOwnSlot(p, recipients[i], messageKey, nonce, coins[i], Hex.FromHex(privateHex).value);
    slots' := slots[i := slots[i].(encap := FlipTopBit(slots[i].encap))];
    assert AllValid(slots') && slots'[i] != slots[i];
    if Pack(slots') == e.slots {
      PackInjective(slots', slots);
    }
    MatchAt(slots', i, recipients[i].keyId);
    TamperedTokenOpens(p, body, recipients, sender, recipientId, messageKey, nonce, coins, e,
                       Kids(recipients), slots', recipients[i].keyId, privateHex);
  }

  /** The outcome of every open of every envelope, told against a sealed body: it comes out exactly under the
      message key, with the sealed nonce and ciphertext and an equal AAD; otherwise nothing does, or the AEAD
      has accepted what was never sealed, under the key the device unwrapped. */
  lemma EnvelopeOpensExactly(
      p: Primitives, body: bytes, recipients: seq<Recipient>, sender: text, recipientId: text,
      messageKey: bytes, nonce: bytes, coins: seq<Coins>, e: Parts,
      e': Parts, keyId: text, private: bytes, sender': text, recipientId': text)
    requires Sealed(p, body, recipients, sender, recipientId, messageKey, nonce, coins, e)
    ensures Aad(p, PqDm.HYBRID_SUITE, sender, recipientId, Kids(recipients)).Some?
    ensures var call := BodyCall(p, body, recipients, sender, recipientId, messageKey, nonce);
      var r := OpenEnvelope(p, e', keyId, private, sender', recipientId');
      match (DeviceKey(p, e', keyId, private), HeaderAad(p, e'.header, sender', recipientId'))
      case (Some(key), Some(aad')) =>
        if key == messageKey && aad' == call.aad && e'.blob == e.blob then r == Some(body)
        else r == None || AcceptsUnsealed(p, call, key, Take(e'.blob, NONCE_LEN), Drop(e'.blob, NONCE_LEN), aad')
      case _ => r == None
  {
    hide SealParts, SealSlot, Aad, Header, HeaderAad, Lawful, OpenParts, DeviceKey, Take, Drop;
    var slots := SealedFacts(p, body, recipients, sender, recipientId, messageKey, nonce, coins, e);
    var call := BodyCall(p, body, recipients, sender, recipientId, messageKey, nonce);
    SealedBody(p, nonce, call);
    BodyCallOpens(p, body, recipients, sender, recipientId, messageKey, nonce);
    TakeAndDrop(e'.blob);
    if HeaderAad(p, e'.header, sender', recipientId').Some? {
      OpenByDeviceKey(p, e', keyId, private, HeaderAad(p, e'.header, sender', recipientId').value);
    }
  }

  lemma TakeAndDrop(b: bytes)
    ensures Take(b, NONCE_LEN) + Drop(b, NONCE_LEN) == b
  {
  }

  /** A device whose own slot is in place refuses every other blob: one that keeps the nonce opens only if the
      AEAD accepts another ciphertext or AAD under the message key, and one that does not only if the AEAD
      accepts the wrapped key with that nonce. */
  lemma OtherBlobRefused(
      p: Primitives, body: bytes, recipients: seq<Recipient>, sender: text, recipientId: text,
      messageKey: bytes, nonce: bytes, coins: seq<Coins>, e: Parts, e': Parts, i: nat, private: bytes,
      sender': text, recipientId': text)
    requires Sealed(p, body, recipients, sender, recipientId, messageKey, nonce, coins, e)
    requires i < |recipients| && IsDeviceOf(p, recipients[i], private) && e'.blob != e.blob
    requires OwnSlotFirst(p, ParseSlots(e'.slots).records, recipients[i], messageKey, nonce, coins[i])
    ensures Aad(p, PqDm.HYBRID_SUITE, sender, recipientId, Kids(recipients)).Some?
    ensures SealSlot(p, recipients[i], messageKey, nonce, coins[i]).Ok?
    ensures var nonce', ct' := Take(e'.blob, NONCE_LEN), Drop(e'.blob, NONCE_LEN);
      var wrap := SlotCall(p, recipients[i], messageKey, nonce, coins[i]);
      var aad' := HeaderAad(p, e'.header, sender', recipientId');
      || OpenEnvelope(p, e', recipients[i].keyId, private, sender', recipientId') == None
      || (nonce' == nonce && aad'.Some?
          && AcceptsUnsealed(p, BodyCall(p, body, recipients, sender, recipientId, messageKey, nonce), messageKey,
                             nonce, ct', aad'.value))
      || (nonce' != nonce && AcceptsUnsealed(p, wrap, wrap.key, nonce', Ciphertext(p, wrap), []))
  {
    hide SealParts, SealSlot, Aad, Header, HeaderAad, OpenEnvelope, RecordsKey, ParseSlots, Take, Drop, IsKeyPair,
         Hex.FromHex, FirstMatch, AcceptsUnsealed, UnwrapSlot, Lawful, OneKey, BoxKey, SlotCall;
    var slots := SealedFacts(p, body, recipients, sender, recipientId, messageKey, nonce, coins, e);
    EnvelopeOpensExactly(p, body, recipients, sender, recipientId, messageKey, nonce, coins, e,
                         e', recipients[i].keyId, private, sender', recipientId');
    var records := ParseSlots(e'.slots).records;
    if Take(e'.blob, NONCE_LEN) == nonce {
      KeyOfOwnSlot(p, records, recipients[i], messageKey, nonce, coins[i], private);
    } else {
      var slot := records[FirstMatch(records, recipients[i].keyId)];
      SlotParts(p, recipients[i], messageKey, nonce, coins[i], private);
      UnwrapExactly(p, recipients[i], messageKey, nonce, coins[i], private, slot, Take(e'.blob, NONCE_LEN));
      KeyOfRecord(p, records, recipients[i].keyId, private, Take(e'.blob, NONCE_LEN));
    }
  }

  lemma KeyOfRecord(p: Primitives, records: seq<Slot>, keyId: text, private: bytes, nonce: bytes)
    requires FirstMatch(records, keyId) < |records|
    ensures var slot := records[FirstMatch(records, keyId)];
      RecordsKey(p, records, keyId, private, nonce) == UnwrapSlot(p, slot.encap, slot.wrapped, private, nonce)
  {
  }

  // ---- slot stripping ----

  function Without<T>(s: seq<T>, j: nat): seq<T>
    requires j < |s|
  {
    s[..j] + s[j + 1..]
  }

  lemma {:induction false} InsertJoinLength(t: text, ts: seq<text>)
    ensures |Join(Insert(t, ts, LexLeq))| == |t| + |Join(ts)|
  {
    if ts != [] && !LexLeq(t, ts[0]) {
      InsertJoinLength(t, ts[1..]);
    }
  }

  lemma {:induction false} JoinedLength(ts: seq<text>)
    ensures |JoinedKids(ts)| == |Join(ts)|
  {
    if ts != [] {
      JoinedLength(ts[1..]);
      InsertJoinLength(ts[0], SortTexts(ts[1..]));
    }
  }

  lemma {:induction false} JoinAppend(ts: seq<text>, us: seq<text>)
    ensures Join(ts + us) == Join(ts) + Join(us)
  {
    if ts == [] {
      assert ts + us == us;
      assert Join(ts) + Join(us) == Join(us);
    } else {
      var t, more, last := ts[0], Join(ts[1..]), Join(us);
      JoinAppend(ts[1..], us);
      assert (ts + us)[0] == t && (ts + us)[1..] == ts[1..] + us;
      assert t + (more + last) == (t + more) + last;
    }
  }

  lemma {:induction false} JoinEmpty(ts: seq<text>)
    ensures Join(ts) == [] <==> forall t: text :: t in ts ==> t == []
  {
    if ts != [] {
      JoinEmpty(ts[1..]);
      assert ts[0] in ts && forall t: text :: t in ts <==> t == ts[0] || t in ts[1..];
      assert Join(ts) == [] <==> ts[0] == [] && Join(ts[1..]) == [];
    }
  }

  lemma EmptyKidInvisible(kids: seq<text>)
    ensures JoinedKids([[]] + kids) == JoinedKids(kids)
  {
    assert ([[]] + kids)[1..] == kids;
    assert SortTexts([[]] + kids) == Insert([], SortTexts(kids), LexLeq) == [[]] + SortTexts(kids);
    assert ([[]] + SortTexts(kids))[1..] == SortTexts(kids);
  }

  lemma {:induction false} EmptyKidsInvisible(kept: seq<text>, removed: seq<text>)
    requires forall k :: k in removed ==> k == []
    ensures JoinedKids(kept + removed) == JoinedKids(kept)
  {
    if removed == [] {
      assert kept + removed == kept;
    } else {
      var rest := kept + removed[1..];
      assert forall k :: k in removed[1..] ==> k in removed;
      EmptyKidsInvisible(kept, removed[1..]);
      assert removed[0] in removed && removed == [[]] + removed[1..];
      assert multiset(kept + removed) == multiset([[]] + rest);
      SortTextsCanonical(kept + removed, [[]] + rest);
      JoinedOfSorted(kept + removed, [[]] + rest);
      hide JoinedKids;
      EmptyKidInvisible(rest);
    }
  }

  /** Key ids that are only removed, any number of them, leave the joined string as it was exactly when
      all that were removed are empty. */
  lemma StripNoticed(kids: seq<text>, kept: seq<text>, removed: seq<text>)
    requires multiset(kids) == multiset(kept + removed)
    ensures JoinedKids(kept) == JoinedKids(kids) <==> forall k :: k in removed ==> k == []
  {
    SortTextsCanonical(kids, kept + removed);
    JoinedLength(kept);
    JoinedLength(kept + removed);
    JoinAppend(kept, removed);
    JoinEmpty(removed);
    if forall k :: k in removed ==> k == [] {
      EmptyKidsInvisible(kept, removed);
    }
  }

  /** Slot-strip detection: once the header has lost key ids, at least one of them not empty, and gained
      none, a device whose own slot is still in place gets nothing, whatever was done to the other slots,
      short of a SHA-256 collision or of an AEAD forgery under the message key. */
  lemma StripDetected(
      p: Primitives, body: bytes, recipients: seq<Recipient>, sender: text, recipientId: text,
      messageKey: bytes, nonce: bytes, coins: seq<Coins>, e: Parts,
      e': Parts, kept: seq<text>, removed: seq<text>, i: nat, private: bytes)
    requires Sealed(p, body, recipients, sender, recipientId, messageKey, nonce, coins, e)
    requires multiset(Kids(recipients)) == multiset(kept + removed) && exists k :: k in removed && k != []
    requires i < |recipients| && IsDeviceOf(p, recipients[i], private)
    requires e'.blob == e.blob && HeaderClaims(e'.header) == Some((PqDm.HYBRID_SUITE, kept))
    requires OwnSlotFirst(p, ParseSlots(e'.slots).records, recipients[i], messageKey, nonce, coins[i])
    ensures Aad(p, PqDm.HYBRID_SUITE, sender, recipientId, Kids(recipients)).Some?
    ensures || OpenEnvelope(p, e', recipients[i].keyId, private, sender, recipientId) == None
            || KidsCollide(p, Kids(recipients), kept)
            || (Aad(p, PqDm.HYBRID_SUITE, sender, recipientId, kept).Some?
                && OpensForeign(p, BodyCall(p, body, recipients, sender, recipientId, messageKey, nonce), messageKey,
                                Aad(p, PqDm.HYBRID_SUITE, sender, recipientId, kept).value))
  {
    hide Sealed, Aad, HeaderClaims, JoinedKids, OpenEnvelope, KidsCollide, OwnSlotFirst, IsDeviceOf, ParseSlots;
    StripNoticed(Kids(recipients), kept, removed);
    DeviceOpensExactly(p, body, recipients, sender, recipientId, messageKey, nonce, coins, e, e', i, private);
  }

  // The three ways to strip a slot unnoticed. In each, device i is not the one stripped, and no slot
  // before its own, other than the one stripped, has its key id.

  ghost predicate Survives(recipients: seq<Recipient>, j: nat, i: nat) {
    && j < |recipients| && i < |recipients| && i != j
    && forall l :: 0 <= l < i && l != j ==> recipients[l].keyId != recipients[i].keyId
  }

  lemma MatchWithout(slots: seq<Slot>, j: nat, i: nat, keyId: text)
    requires i < |slots| && j < |slots| && i != j
    requires Utf8.DecodeReplace(slots[i].kid) == keyId
    requires forall l :: 0 <= l < i && l != j ==> Utf8.DecodeReplace(slots[l].kid) != keyId
    ensures var n := FirstMatch(Without(slots, j), keyId); n < |Without(slots, j)| && Without(slots, j)[n] == slots[i]
  {
    hide Utf8.DecodeReplace, FirstMatch;
    var rest := Without(slots, j);
    var m := if i < j then i else i - 1;
    assert rest[m] == slots[i];
    forall l | 0 <= l < m
      ensures Utf8.DecodeReplace(rest[l].kid) != keyId
    {
      assert rest[l] == if l < j then slots[l] else slots[l + 1];
    }
    MatchAt(rest, m, keyId);
  }

  lemma MatchAt(records: seq<Slot>, m: nat, keyId: text)
    requires m < |records| && Utf8.DecodeReplace(records[m].kid) == keyId
    requires forall l :: 0 <= l < m ==> Utf8.DecodeReplace(records[l].kid) != keyId
    ensures FirstMatch(records, keyId) == m
  {
    var n := FirstMatch(records, keyId);
    assert n <= m && m <= n;
  }

  /** The envelope without slot j. */
  function DropSlot(e: Parts, j: nat): (e': Parts)
    requires j < |ParseSlots(e.slots).records|
    ensures e'.header == e.header && e'.blob == e.blob
  {
    e.(slots := Pack(Without(ParseSlots(e.slots).records, j)))
  }

  /** Slot j goes; whatever the header then claims, as long as it joins to the same string, device i
      notices nothing. */
  lemma StrippedTokenOpens(
      p: Primitives, body: bytes, recipients: seq<Recipient>, sender: text, recipientId: text,
      messageKey: bytes, nonce: bytes, coins: seq<Coins>, e: Parts,
      j: nat, kids': seq<text>, i: nat, privateHex: text)
    requires Sealed(p, body, recipients, sender, recipientId, messageKey, nonce, coins, e)
    requires Survives(recipients, j, i)
    requires Hex.FromHex(privateHex).Some? && IsDeviceOf(p, recipients[i], Hex.FromHex(privateHex).value)
    requires JoinedKids(kids') == JoinedKids(Kids(recipients)) && forall k :: 0 <= k < |kids'| ==> WellPaired(kids'[k])
    ensures |ParseSlots(e.slots).records| == |recipients| && e.header == Header(sender, recipientId, Kids(recipients))
    ensures var e' := DropSlot(e, j).(header := Header(sender, recipientId, kids'));
      OpenMultiSpec(p, Token(e'), recipients[i].keyId, privateHex, sender, recipientId) == Some(body)
  {
    hide SealParts, SealSlot, OpenMultiSpec, Aad, Token, Header, JoinedKids, IsDeviceOf, Hex.FromHex, Lawful, FirstMatch,
         Utf8.DecodeReplace, WellPaired, RecordsKey, CrossKeyOpen;
    var slots := SealedFacts(p, body, recipients, sender, recipientId, messageKey, nonce, coins, e);
    SlotCodec(slots, Pack(slots));
    MatchWithout(slots, j, i, recipients[i].keyId);
    KeyOfOwnSlot(p, Without(slots, j), recipients[i], messageKey, nonce, coins[i], Hex.FromHex(privateHex).value);
    TamperedTokenOpens(p, body, recipients, sender, recipientId, messageKey, nonce, coins, e,
                       kids', Without(slots, j), recipients[i].keyId, privateHex);
  }

  lemma KidsPaired(p: Primitives, body: bytes, recipients: seq<Recipient>, sender: text, recipientId: text,
                   messageKey: bytes, nonce: bytes, coins: seq<Coins>, e: Parts)
    requires Sealed(p, body, recipients, sender, recipientId, messageKey, nonce, coins, e)
    ensures forall k :: 0 <= k < |Kids(recipients)| ==> WellPaired(Kids(recipients)[k])
    ensures WellPaired(JoinedKids(Kids(recipients)))
  {
    hide SealParts, SealSlot, Header, JoinedKids, Lawful, WellPaired, Utf8.Encode;
    var slots := SealedFacts(p, body, recipients, sender, recipientId, messageKey, nonce, coins, e);
    DigestOfAad(p, PqDm.HYBRID_SUITE, sender, recipientId, Kids(recipients));
    ScalarTextIsWellPaired(JoinedKids(Kids(recipients)));
  }

  /** First way: the header is left alone. Any slot at all can be dropped from the token, and every other
      device still opens it; no open compares the slots with the key ids of the header. */
  lemma SlotStripUndetected(
      p: Primitives, body: bytes, recipients: seq<Recipient>, sender: text, recipientId: text,
      messageKey: bytes, nonce: bytes, coins: seq<Coins>, e: Parts, j: nat, i: nat, privateHex: text)
    requires Sealed(p, body, recipients, sender, recipientId, messageKey, nonce, coins, e)
    requires Survives(recipients, j, i)
    requires Hex.FromHex(privateHex).Some? && IsDeviceOf(p, recipients[i], Hex.FromHex(privateHex).value)
    ensures |ParseSlots(e.slots).records| == |recipients|
    ensures OpenMultiSpec(p, Token(DropSlot(e, j)), recipients[i].keyId, privateHex, sender, recipientId) == Some(body)
  {
    hide Sealed, OpenMultiSpec, Token, Header, JoinedKids, IsDeviceOf, Hex.FromHex, WellPaired, ParseSlots, DropSlot;
    KidsPaired(p, body, recipients, sender, recipientId, messageKey, nonce, coins, e);
    StrippedTokenOpens(p, body, recipients, sender, recipientId, messageKey, nonce, coins, e, j, Kids(recipients), i, privateHex);
  }

  /** Second way: the header names one key id, the joined string. Key id j is then gone from the header as
      well, unless all the others are empty, and every other device still opens the token. */
  lemma SlotAndKidStripUndetected(
      p: Primitives, body: bytes, recipients: seq<Recipient>, sender: text, recipientId: text,
      messageKey: bytes, nonce: bytes, coins: seq<Coins>, e: Parts, j: nat, i: nat, privateHex: text)
    requires Sealed(p, body, recipients, sender, recipientId, messageKey, nonce, coins, e)
    requires Survives(recipients, j, i)
    requires Hex.FromHex(privateHex).Some? && IsDeviceOf(p, recipients[i], Hex.FromHex(privateHex).value)
    ensures |ParseSlots(e.slots).records| == |recipients|
    ensures var kids' := [JoinedKids(Kids(recipients))];
      var e' := DropSlot(e, j).(header := Header(sender, recipientId, kids'));
      && HeaderClaims(PairJson(e'.header)) == Some((PqDm.HYBRID_SUITE, kids'))
      && (recipients[j].keyId in kids' ==> forall k :: 0 <= k < |recipients| && k != j ==> recipients[k].keyId == [])
      && OpenMultiSpec(p, Token(e'), recipients[i].keyId, privateHex, sender, recipientId) == Some(body)
  {
    hide Sealed, OpenMultiSpec, Token, Header, HeaderClaims, JoinedKids, IsDeviceOf, Hex.FromHex, WellPaired, ParseSlots,
         DropSlot, PairJson;
    var kids := Kids(recipients);
    KidsPaired(p, body, recipients, sender, recipientId, messageKey, nonce, coins, e);
    JoinedOne(JoinedKids(kids));
    ClaimsOfHeader(sender, recipientId, [JoinedKids(kids)]);
    StrippedTokenOpens(p, body, recipients, sender, recipientId, messageKey, nonce, coins, e, j, [JoinedKids(kids)], i, privateHex);
    if recipients[j].keyId == JoinedKids(kids) {
      WithoutIsRemoval(kids, j);
      OthersEmpty(kids, j);
    }
  }

  lemma WithoutIsRemoval<T>(s: seq<T>, j: nat)
    requires j < |s|
    ensures multiset(s) == multiset(Without(s, j) + [s[j]]) && multiset(s) == multiset([s[j]] + Without(s, j))
    ensures forall k :: 0 <= k < |s| && k != j ==> s[k] in Without(s, j)
  {
    assert s == s[..j] + [s[j]] + s[j + 1..];
    assert forall k :: 0 <= k < j ==> s[k] == Without(s, j)[k];
    assert forall k :: j < k < |s| ==> s[k] == Without(s, j)[k - 1];
  }

  lemma OthersEmpty(kids: seq<text>, j: nat)
    requires j < |kids| && kids[j] == JoinedKids(kids)
    ensures forall k :: 0 <= k < |kids| && k != j ==> kids[k] == []
  {
    hide JoinedKids, Without;
    WithoutIsRemoval(kids, j);
    JoinedOne(kids[j]);
    StripNoticed(kids, [kids[j]], Without(kids, j));
  }

  /** Third way: an empty key id goes from the header together with its slot. */
  lemma EmptyKidStripUndetected(
      p: Primitives, body: bytes, recipients: seq<Recipient>, sender: text, recipientId: text,
      messageKey: bytes, nonce: bytes, coins: seq<Coins>, e: Parts, j: nat, i: nat, privateHex: text)
    requires Sealed(p, body, recipients, sender, recipientId, messageKey, nonce, coins, e)
    requires Survives(recipients, j, i) && recipients[j].keyId == []
    requires Hex.FromHex(privateHex).Some? && IsDeviceOf(p, recipients[i], Hex.FromHex(privateHex).value)
    ensures |ParseSlots(e.slots).records| == |recipients|
    ensures var kids' := Without(Kids(recipients), j);
      var e' := DropSlot(e, j).(header := Header(sender, recipientId, kids'));
      && HeaderClaims(PairJson(e'.header)) == Some((PqDm.HYBRID_SUITE, kids'))
      && OpenMultiSpec(p, Token(e'), recipients[i].keyId, privateHex, sender, recipientId) == Some(body)
  {
    hide Sealed, OpenMultiSpec, Token, Header, HeaderClaims, JoinedKids, IsDeviceOf, Hex.FromHex, WellPaired, ParseSlots,
         DropSlot, PairJson;
    var kids := Kids(recipients);
    var kids' := Without(kids, j);
    KidsPaired(p, body, recipients, sender, recipientId, messageKey, nonce, coins, e);
    assert forall k :: 0 <= k < |kids'| ==> kids'[k] == kids[if k < j then k else k + 1];
    WithoutIsRemoval(kids, j);
    StripNoticed(kids, kids', [kids[j]]);
    ClaimsOfHeader(sender, recipientId, kids');
    StrippedTokenOpens(p, body, recipients, sender, recipientId, messageKey, nonce, coins, e, j, kids', i, privateHex);
  }

  // ---- what the joined string says about the slot set ----

  lemma JoinedOne(kid: text)
    ensures JoinedKids([kid]) == kid
  {
    assert [kid][1..] == [];
    assert Sort([], LexLeq) == [];
    assert SortTexts([kid]) == Insert(kid, [], LexLeq) == [kid] + [];
    assert [kid] + [] == [kid] && Join([kid]) == kid + [];
  }

  /** No slot set is bound by its AAD alone: every list of key ids shares it with the list whose one entry
      is the joined string, and with itself and any number of empty key ids. */
  lemma KidBoundariesNotBound(p: Primitives, suite: text, sender: text, recipient: text, kids: seq<text>, empties: seq<text>)
    requires forall k :: k in empties ==> k == []
    ensures Aad(p, suite, sender, recipient, [JoinedKids(kids)]) == Aad(p, suite, sender, recipient, kids)
    ensures Aad(p, suite, sender, recipient, kids + empties) == Aad(p, suite, sender, recipient, kids)
    ensures multiset([JoinedKids(kids)]) == multiset(kids) <==> |kids| == 1
    ensures multiset(kids + empties) == multiset(kids) <==> empties == []
  {
    hide JoinedKids, KidDigest;
    JoinedOne(JoinedKids(kids));
    EmptyKidsInvisible(kids, empties);
    SameJoinedSameDigest(p, kids, [JoinedKids(kids)]);
    SameJoinedSameDigest(p, kids, kids + empties);
    if |kids| == 1 {
      JoinedOne(kids[0]);
      assert kids == [kids[0]];
    }
    assert |multiset([JoinedKids(kids)])| == 1 && |multiset(kids)| == |kids|;
    assert |multiset(kids + empties)| == |kids| + |empties|;
  }

  /** A slot set whose key ids have one non-zero length: of all lists that join to its string, exactly
      those that keep to this length name the same slots. */
  lemma EqualLengthKidsDetermined(kids: seq<text>, kids': seq<text>, n: nat)
    requires n > 0
    requires forall k :: k in kids ==> |k| == n
    ensures JoinedKids(kids) == JoinedKids(kids') && (forall k :: k in kids' ==> |k| == n)
       <==> multiset(kids) == multiset(kids')
  {
    hide JoinedKids;
    if multiset(kids) == multiset(kids') {
      SortTextsCanonical(kids, kids');
      JoinedOfSorted(kids, kids');
      forall k | k in kids'
        ensures |k| == n
      {
        assert k in multiset(kids');
        assert k in kids;
      }
    } else if JoinedKids(kids) == JoinedKids(kids') && forall k :: k in kids' ==> |k| == n {
      EqualLengthsDetermine(kids, kids', n);
    }
  }

  lemma JoinedOfSorted(kids: seq<text>, kids': seq<text>)
    requires SortTexts(kids) == SortTexts(kids')
    ensures JoinedKids(kids) == JoinedKids(kids')
  {
  }

  lemma EqualLengthsDetermine(kids: seq<text>, kids': seq<text>, n: nat)
    requires n > 0 && JoinedKids(kids) == JoinedKids(kids')
    requires forall k :: k in kids ==> |k| == n
    requires forall k :: k in kids' ==> |k| == n
    ensures multiset(kids) == multiset(kids')
  {
    SortPermutes(kids, LexLeq);
    SortPermutes(kids', LexLeq);
    SortedLengths(kids, n);
    SortedLengths(kids', n);
    JoinFixedInjective(SortTexts(kids), SortTexts(kids'), n);
  }

  lemma SortedLengths(kids: seq<text>, n: nat)
    requires forall k :: k in kids ==> |k| == n
    ensures forall k :: k in SortTexts(kids) ==> |k| == n
  {
    SortPermutes(kids, LexLeq);
    forall k | k in SortTexts(kids)
      ensures |k| == n
    {
      assert k in multiset(SortTexts(kids));
      assert k in kids;
    }
  }

  lemma JoinNotEmpty(a: seq<text>, n: nat)
    requires forall k :: k in a ==> |k| == n
    ensures a != [] ==> |Join(a)| >= n
  {
    assert a != [] ==> Join(a) == a[0] + Join(a[1..]);
  }

  lemma {:induction false} JoinFixedInjective(a: seq<text>, b: seq<text>, n: nat)
    requires n > 0 && Join(a) == Join(b)
    requires forall k :: k in a ==> |k| == n
    requires forall k :: k in b ==> |k| == n
    ensures a == b
  {
    JoinNotEmpty(a, n);
    JoinNotEmpty(b, n);
    if a != [] {
      assert a[0] in a && b[0] in b;
      assert Join(a)[..n] == a[0] && Join(b)[..n] == b[0];
      assert Join(a)[n..] == Join(a[1..]) && Join(b)[n..] == Join(b[1..]);
      JoinFixedInjective(a[1..], b[1..], n);
      assert a == [a[0]] + a[1..] && b == [b[0]] + b[1..];
    }
  }
}
