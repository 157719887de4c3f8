/** The aqid address codec: aqid:<relay>/<base64url, unpadded>. */
module AnonQueue {
  import opened Basics
  import opened Base64

  const QUEUE_ID_LEN: nat := 16
  const SCHEME: seq<ascii> := Ascii("aqid:")
  const SLASH: ascii := '/' as int

  datatype AqidError = BadRelay | BadId | BadScheme | NoSeparator

  datatype Address = Address(relay: text, senderId: bytes)

  /** `b.rstrip(b"=")` */
  function StripPads(b: seq<ascii>): seq<ascii> {
    if b != [] && b[|b| - 1] == PAD then StripPads(b[..|b| - 1]) else b
  }

  function EncodeAqid(relay: text, senderId: bytes): Result<text, AqidError> {
    if relay == [] || SLASH in relay then Err(BadRelay)
    else if |senderId| != QUEUE_ID_LEN then Err(BadId)
    else Ok(SCHEME + relay + [SLASH] + StripPads(Encode(UrlSafe, senderId)))
  }

  function DecodeAqid(s: text): Result<Address, AqidError> {
    if !StartsWith(s, SCHEME) then Err(BadScheme)
    else
      var body := s[|SCHEME|..];
      var n := IndexOf<codepoint>(body, SLASH);
      if n == |body| then Err(NoSeparator)
      else
        var relay, id := body[..n], body[n + 1..];
        if relay == [] then Err(BadRelay)
        else if id == [] then Err(BadId)
        else match Decode(UrlSafe, id + Pads(-|id| % 4))
          case None => Err(BadId)
          case Some(senderId) => if |senderId| == QUEUE_ID_LEN then Ok(Address(relay, senderId)) else Err(BadId)
  }

  lemma {:induction false} StripPadsExact(s: seq<ascii>, n: nat)
    requires PAD !in s
    ensures StripPads(s + Pads(n)) == s
  {
    var t := s + Pads(n);
    if n > 0 {
      assert t[..|t| - 1] == s + Pads(n - 1);
      StripPadsExact(s, n - 1);
    } else {
      assert t == s;
      assert s != [] ==> s[|s| - 1] in s;
    }
  }

  /** An address without its scheme and relay. */
  lemma EncodedId(senderId: bytes)
    ensures StripPads(Encode(UrlSafe, senderId)) == Unpadded(UrlSafe, senderId)
    ensures |senderId| == QUEUE_ID_LEN ==> |Unpadded(UrlSafe, senderId)| == 22
    ensures Decode(UrlSafe, Unpadded(UrlSafe, senderId) + Pads(-|Unpadded(UrlSafe, senderId)| % 4)) == Some(senderId)
  {
    hide Decode, Read;
    PaddingRestored(UrlSafe, senderId);
    StripPadsExact(Unpadded(UrlSafe, senderId), (3 - |senderId| % 3) % 3);
    DecodeEncode(UrlSafe, senderId);
  }

  lemma DecodeSplit(relay: text, id: text)
    requires relay != [] && SLASH !in relay && id != []
    ensures DecodeAqid(SCHEME + relay + [SLASH] + id)
         == match Decode(UrlSafe, id + Pads(-|id| % 4))
            case None => Err(BadId)
            case Some(senderId) => if |senderId| == QUEUE_ID_LEN then Ok(Address(relay, senderId)) else Err(BadId)
  {
    hide Decode;
    var s := SCHEME + relay + [SLASH] + id;
    var body := relay + [SLASH] + id;
    assert s[..|SCHEME|] == SCHEME && s[|SCHEME|..] == body;
    IndexOfFirst<codepoint>(relay, SLASH, id);
    assert body[..|relay|] == relay && body[|relay| + 1..] == id;
  }

  /** An address, part by part, and the error of each refusal: the relay is looked at before the id. */
  lemma AqidLayout(relay: text, senderId: bytes)
    ensures var r := EncodeAqid(relay, senderId);
      && (r == Err(BadRelay) <==> relay == [] || '/' as int in relay)
      && (r == Err(BadId) <==> relay != [] && '/' as int !in relay && |senderId| != 16)
      && (r.Ok? ==>
           && |Encode(UrlSafe, senderId)| == 24 && Encode(UrlSafe, senderId)[22..] == Ascii("==")
           && r.value == Ascii("aqid:") + relay + Ascii("/") + Encode(UrlSafe, senderId)[..22])
  {
    hide Encode, Unpadded, StripPads;
    assert Ascii("/") == [SLASH];
    if EncodeAqid(relay, senderId).Ok? {
      EncodedId(senderId);
      PaddedId(senderId);
    }
  }

  lemma PaddedId(senderId: bytes)
    requires |senderId| == 16
    ensures |Encode(UrlSafe, senderId)| == 24 && Encode(UrlSafe, senderId)[22..] == Ascii("==")
    ensures Encode(UrlSafe, senderId)[..22] == Unpadded(UrlSafe, senderId)
  {
    hide Unpadded;
    EncodedId(senderId);
    assert Ascii("==") == Pads(2);
  }

  /** Which texts are refused, in this order: no scheme, no slash, nothing before the first slash, and an id
      behind it that is empty or does not read as 16 bytes once it is padded to a multiple of four. All
      others are accepted, the relay being what stands before the first slash. */
  lemma DecodeExact(s: text, relay: text, id: text)
    ensures !StartsWith(s, Ascii("aqid:")) ==> DecodeAqid(s) == Err(BadScheme)
    ensures '/' as int !in relay && s == Ascii("aqid:") + relay ==> DecodeAqid(s) == Err(NoSeparator)
    ensures '/' as int !in relay && s == Ascii("aqid:") + relay + Ascii("/") + id ==>
              DecodeAqid(s)
              == if relay == [] then Err(BadRelay)
                 else if id == [] then Err(BadId)
                 else match Decode(UrlSafe, id + Pads(-|id| % 4))
                   case None => Err(BadId)
                   case Some(senderId) => if |senderId| == 16 then Ok(Address(relay, senderId)) else Err(BadId)
  {
    hide Decode, StartsWith;
    assert Ascii("/") == [SLASH];
    SchemeCut(s, relay);
    if SLASH !in relay {
      IndexOfFirst<codepoint>(relay, SLASH, id);
      SchemeCut(s, relay + [SLASH] + id);
      var body := relay + [SLASH] + id;
      assert body[..|relay|] == relay && body[|relay| + 1..] == id;
      assert Ascii("aqid:") + relay + [SLASH] + id == Ascii("aqid:") + body;
    }
  }

  lemma SchemeCut(s: text, body: text)
    ensures s == Ascii("aqid:") + body ==> StartsWith(s, SCHEME) && s[|SCHEME|..] == body
    ensures |SCHEME| == 5
  {
  }

  /** Round trip: every relay that can be encoded and every id come back exactly. */
  lemma AqidRoundTrip(relay: text, senderId: bytes)
    ensures EncodeAqid(relay, senderId).Ok? <==> relay != [] && SLASH !in relay && |senderId| == QUEUE_ID_LEN
    ensures EncodeAqid(relay, senderId).Ok? ==>
              DecodeAqid(EncodeAqid(relay, senderId).value) == Ok(Address(relay, senderId))
  {
    hide DecodeAqid, Decode, Encode, Unpadded, StripPads;
    if EncodeAqid(relay, senderId).Ok? {
      EncodedId(senderId);
      DecodeSplit(relay, Unpadded(UrlSafe, senderId));
    }
  }

  /** Two addresses that encode alike are alike. */
  lemma AqidInjective(a: Address, b: Address)
    requires EncodeAqid(a.relay, a.senderId).Ok?
    requires EncodeAqid(a.relay, a.senderId) == EncodeAqid(b.relay, b.senderId)
    ensures a == b
  {
    hide EncodeAqid, DecodeAqid;
    AqidRoundTrip(a.relay, a.senderId);
    AqidRoundTrip(b.relay, b.senderId);
  }

  // ---- what the decoder accepts beyond the encoder's image ----

  /** An id part as the encoder writes it: 22 letters of the URL-safe alphabet, the last one ending in
      four zero bits. */
  predicate CanonicalId(id: text) {
    && |id| == 22
    && (forall i :: 0 <= i < |id| ==> IsLetter(id[i]))
    && Value(UrlSafe, id[21]).Some? && Value(UrlSafe, id[21]).value % 16 == 0
  }

  predicate IsLetter(c: codepoint) {
    Value(UrlSafe, c).Some? && c != '+' as int && c != '/' as int
  }

  function IdPart(s: text): text {
    if !StartsWith(s, SCHEME) then []
    else
      var body := s[|SCHEME|..];
      var n := IndexOf<codepoint>(body, SLASH);
      if n == |body| then [] else body[n + 1..]
  }

  lemma LetterOfValue(c: codepoint)
    requires IsLetter(c)
    ensures Letter(UrlSafe, Value(UrlSafe, c).value) == c
  {
  }

  lemma CanonicalIdSextets(id: text) returns (q: seq<sextet>)
    requires CanonicalId(id)
    ensures |q| == 22 && CanonicalTail(q) && Letters(UrlSafe, q) == id
  {
    q := seq(|id|, i requires 0 <= i < |id| => Value(UrlSafe, id[i]).value);
    forall i | 0 <= i < |id|
      ensures Letter(UrlSafe, q[i]) == id[i]
    {
      LetterOfValue(id[i]);
    }
  }

  lemma CanonicalIdDecodes(id: text) returns (senderId: bytes)
    requires CanonicalId(id)
    ensures |senderId| == QUEUE_ID_LEN && Unpadded(UrlSafe, senderId) == id
    ensures Decode(UrlSafe, id + Pads(-|id| % 4)) == Some(senderId)
  {
    hide Letter, Value, Flush;
    var q := CanonicalIdSextets(id);
    senderId := Unsextets(q);
    SextetsUnsextets(q);
    EncodedId(senderId);
  }

  lemma UnpaddedIsCanonical(senderId: bytes)
    requires |senderId| == QUEUE_ID_LEN
    ensures CanonicalId(Unpadded(UrlSafe, senderId))
  {
    var q := Sextets(senderId);
    SextetsCanonical(senderId);
    forall i | 0 <= i < |q|
      ensures IsLetter(Letters(UrlSafe, q)[i]) && Value(UrlSafe, Letters(UrlSafe, q)[i]) == Some(q[i])
    {
      LetterValue(UrlSafe, q[i]);
    }
  }

  /** An address that decodes is the encoding of what it decodes to exactly when its id part is
      canonical; every other accepted address is a second spelling. */
  lemma AcceptedSpelling(s: text)
    requires DecodeAqid(s).Ok?
    ensures var a := DecodeAqid(s).value;
      EncodeAqid(a.relay, a.senderId) == Ok(s) <==> CanonicalId(IdPart(s))
  {
    hide Decode, Encode, Unpadded, StripPads, CanonicalId;
    var a := DecodeAqid(s).value;
    var id := IdPart(s);
    assert s == SCHEME + a.relay + [SLASH] + id by {
      assert s == SCHEME + s[|SCHEME|..];
    }
    EncodedId(a.senderId);
    UnpaddedIsCanonical(a.senderId);
    if CanonicalId(id) {
      var senderId := CanonicalIdDecodes(id);
    }
    if EncodeAqid(a.relay, a.senderId) == Ok(s) {
      var own := SCHEME + a.relay + [SLASH] + Unpadded(UrlSafe, a.senderId);
      assert own == s;
      assert own[|SCHEME| + |a.relay| + 1..] == Unpadded(UrlSafe, a.senderId);
      assert s[|SCHEME| + |a.relay| + 1..] == id;
    }
  }

  /** Second spellings exist, contrary to the decoder's promise to reject what is not base64url: for
      every address the encoder writes, putting "!!!!" before the id changes nothing. */
  lemma SecondSpelling(relay: text, senderId: bytes)
    requires EncodeAqid(relay, senderId).Ok?
    ensures var s := SCHEME + relay + [SLASH] + (Ascii("!!!!") + Unpadded(UrlSafe, senderId));
      DecodeAqid(s) == Ok(Address(relay, senderId)) && EncodeAqid(relay, senderId) != Ok(s)
  {
    hide Encode, StripPads, DecodeAqid;
    var id: text := Unpadded(UrlSafe, senderId);
    EncodedId(senderId);
    DecodeSplit(relay, Ascii("!!!!") + id);
    SkipForeign(id + Pads(-|id| % 4));
    assert -|Ascii("!!!!") + id| % 4 == -|id| % 4;
    assert (Ascii("!!!!") + id) + Pads(-|id| % 4) == Ascii("!!!!") + (id + Pads(-|id| % 4));
    var s := SCHEME + relay + [SLASH] + (Ascii("!!!!") + id);
    assert |s| != |SCHEME + relay + [SLASH] + id|;
  }

  lemma SkipForeign(t: text)
    ensures Decode(UrlSafe, Ascii("!!!!") + t) == Decode(UrlSafe, t)
  {
    var u := Ascii("!!!!") + t;
    assert u[4..] == t && u[1..][1..][1..][1..] == t;
    assert Read(UrlSafe, u, [], 0) == Read(UrlSafe, u[1..], [], 0);
    assert Read(UrlSafe, u[1..], [], 0) == Read(UrlSafe, u[1..][1..], [], 0);
    assert Read(UrlSafe, u[1..][1..], [], 0) == Read(UrlSafe, u[1..][1..][1..], [], 0);
    assert forall i :: 0 <= i < |t| ==> u[i + 4] == t[i];
  }
}
