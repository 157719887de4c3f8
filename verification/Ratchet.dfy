/** The epoch ratchets. The 1:1 and the group ratchet are twins that differ in their labels only, so
    one module covers both layers. */
module Ratchet {
  import opened Basics
  import opened Crypto
  import opened KemBox
  import opened PqKem

  datatype Layer = Dm | Group

  const EPOCH_SECRET_LEN: nat := 32
  const DEFAULT_REKEY_MSG_BOUND: int := 50
  const DEFAULT_REKEY_AGE_SECONDS: int := 7 * 24 * 3600
  const WRAPPED_PAYLOAD_LEN: nat := CIPHERTEXT_LEN + NONCE_LEN + EPOCH_SECRET_LEN + TAG_LEN

  /** DmRatchetError or GroupRatchetError in its two uses, or an error of the KEM. */
  datatype RatchetError = BadLength | Unauthentic | Kem(error: KemError)

  function EpochLabel(layer: Layer): bytes {
    match layer
    case Dm => Ascii("skchat/dm-epoch/")
    case Group => Ascii("skchat/epoch/")
  }

  function MessageLabel(layer: Layer): bytes {
    match layer
    case Dm => Ascii("skchat/dm-ratchet/msg/v1")
    case Group => Ascii("skchat/group-ratchet/msg/v1")
  }

  function WrapLabel(layer: Layer): bytes {
    match layer
    case Dm => Ascii("skchat/dm-ratchet/epoch-wrap/v1")
    case Group => Ascii("skchat/group-ratchet/epoch-wrap/v1")
  }

  // ---- message keys ----

  function MessageKeyInput(layer: Layer, epochSecret: bytes, epoch: int, index: int): KdfInput {
    KdfInput(epochSecret, EpochLabel(layer) + U64(epoch), MessageLabel(layer) + Ascii("/") + U64(index))
  }

  function DeriveMessageKey(p: Primitives, layer: Layer, epochSecret: bytes, epoch: int, index: int)
    : Result<bytes, RatchetError>
  {
    if |epochSecret| != EPOCH_SECRET_LEN then Err(BadLength)
    else Ok(p.hkdf(MessageKeyInput(layer, epochSecret, epoch, index)))
  }

  lemma LabelsDiffer()
    ensures |EpochLabel(Dm)| == 16 && |EpochLabel(Group)| == 13
    ensures EpochLabel(Dm)[7] == 'd' as int && EpochLabel(Group)[7] == 'e' as int
  {
  }

  lemma WrapLabelsDiffer()
    ensures WrapLabel(Dm) != WrapLabel(Group)
  {
    assert |WrapLabel(Dm)| == 31 && |WrapLabel(Group)| == 34;
  }

  /** Two message keys come from one derivation exactly when layer and secret are equal and epoch and
      index agree modulo 2^64: the encoding loses nothing else. */
  lemma MessageKeyInputEqual(layer: Layer, secret: bytes, epoch: int, index: int,
                             layer': Layer, secret': bytes, epoch': int, index': int)
    ensures MessageKeyInput(layer, secret, epoch, index) == MessageKeyInput(layer', secret', epoch', index')
       <==> layer == layer' && secret == secret' && epoch % TWO64 == epoch' % TWO64 && index % TWO64 == index' % TWO64
  {
    hide U64, EpochLabel;
    var i, j := MessageKeyInput(layer, secret, epoch, index), MessageKeyInput(layer', secret', epoch', index');
    LabelsDiffer();
    U64Equal(epoch, epoch');
    U64Equal(index, index');
    assert i.salt[7] == EpochLabel(layer)[7] && j.salt[7] == EpochLabel(layer')[7];
    if layer == layer' {
      var n, m := |EpochLabel(layer)|, |MessageLabel(layer)| + 1;
      assert i.salt[n..] == U64(epoch) && j.salt[n..] == U64(epoch');
      assert i.info[m..] == U64(index) && j.info[m..] == U64(index');
    }
  }

  lemma Behind(front: bytes, n: int)
    ensures var b := front + U64(n);
      |b| == |front| + 8 && b[..|b| - 8] == front && FromBigEndian(b[|b| - 8..]) == n % TWO64
  {
    hide U64, FromBigEndian;
    U64Value(n);
    assert (front + U64(n))[|front|..] == U64(n);
  }

  /** Which counter goes where: the secret is the key material, the epoch stands at the end of the salt and
      the index at the end of the info, both big-endian modulo 2^64 behind the labels of the layer. */
  lemma MessageKeyLayout(layer: Layer, secret: bytes, epoch: int, index: int)
    ensures var i := MessageKeyInput(layer, secret, epoch, index);
      && i.ikm == secret && |i.salt| >= 8 && |i.info| >= 8
      && i.salt[..|i.salt| - 8] == EpochLabel(layer)
      && FromBigEndian(i.salt[|i.salt| - 8..]) == epoch % TWO64
      && i.info[..|i.info| - 8] == MessageLabel(layer) + Ascii("/")
      && FromBigEndian(i.info[|i.info| - 8..]) == index % TWO64
  {
    hide U64, FromBigEndian, EpochLabel, MessageLabel;
    Behind(EpochLabel(layer), epoch);
    Behind(MessageLabel(layer) + Ascii("/"), index);
  }

  /** A key is derived exactly from a secret of 32 bytes; any other length is the one error. */
  lemma KeyAccepts(p: Primitives, layer: Layer, secret: bytes, epoch: int, index: int)
    ensures DeriveMessageKey(p, layer, secret, epoch, index)
         == if |secret| == 32 then Ok(p.hkdf(MessageKeyInput(layer, secret, epoch, index))) else Err(BadLength)
  {
  }

  // ---- epoch distribution ----

  function WrapKeyInput(layer: Layer, shared: bytes): KdfInput {
    KdfInput(shared, [], WrapLabel(layer))
  }

  function WrapEpochSecret(p: Primitives, layer: Layer, epochSecret: bytes, public: bytes, coins: Coins, nonce: bytes)
    : Result<bytes, RatchetError>
  {
    if |epochSecret| != EPOCH_SECRET_LEN || |public| != PUBLIC_KEY_LEN then Err(BadLength)
    else match HybridEncap(p, public, coins, HKDF_INFO)
      case Err(e) => Err(Kem(e))
      case Ok((ciphertext, shared)) =>
        Ok(ciphertext + nonce + p.aeadSeal(p.hkdf(WrapKeyInput(layer, shared)), nonce, epochSecret, []))
  }

  function UnwrapEpochSecret(p: Primitives, layer: Layer, payload: bytes, private: bytes): Result<bytes, RatchetError> {
    if |payload| != WRAPPED_PAYLOAD_LEN then Err(BadLength)
    else
      var ciphertext := payload[..CIPHERTEXT_LEN];
      var nonce := payload[CIPHERTEXT_LEN..CIPHERTEXT_LEN + NONCE_LEN];
      var wrapped := payload[CIPHERTEXT_LEN + NONCE_LEN..];
      match HybridDecap(p, ciphertext, private, HKDF_INFO)
      case Err(e) => Err(Kem(e))
      case Ok(shared) =>
        match p.aeadOpen(p.hkdf(WrapKeyInput(layer, shared)), nonce, wrapped, [])
        case None => Err(Unauthentic)
        case Some(epochSecret) => Ok(epochSecret)
  }

  /** When wrapping succeeds, and the error of each refusal. */
  lemma WrapAccepts(p: Primitives, layer: Layer, epochSecret: bytes, public: bytes, coins: Coins, nonce: bytes)
    ensures var r := WrapEpochSecret(p, layer, epochSecret, public, coins, nonce);
      var kem := HybridEncap(p, public, coins, HKDF_INFO);
      && (r.Ok? <==> |epochSecret| == 32 && kem.Ok?)
      && (r == Err(BadLength) <==> |epochSecret| != 32 || |public| != 1216)
      && (|epochSecret| == 32 && |public| == 1216 && kem.Err? ==> r == Err(Kem(kem.error)))
  {
    EncapAccepts(p, public, coins, HKDF_INFO);
    hide HybridEncap;
  }

  /** A payload, part by part. */
  lemma PayloadLayout(p: Primitives, layer: Layer, epochSecret: bytes, public: bytes, coins: Coins, nonce: bytes)
    requires Lawful(p) && |nonce| == NONCE_LEN
    requires WrapEpochSecret(p, layer, epochSecret, public, coins, nonce).Ok?
    ensures var payload := WrapEpochSecret(p, layer, epochSecret, public, coins, nonce).value;
      var (ciphertext, shared) := HybridEncap(p, public, coins, Ascii("sk_pqc/x25519-mlkem768/v1")).value;
      var info := if layer.Dm? then Ascii("skchat/dm-ratchet/epoch-wrap/v1") else Ascii("skchat/group-ratchet/epoch-wrap/v1");
      && |payload| == 1180
      && payload[..1120] == ciphertext && payload[1120..1132] == nonce
      && payload[1132..] == p.aeadSeal(p.hkdf(KdfInput(shared, [], info)), nonce, epochSecret, [])
  {
    hide HybridEncap;
    EncapLayout(p, public, coins, HKDF_INFO);
    var (ciphertext, shared) := HybridEncap(p, public, coins, HKDF_INFO).value;
    var key := p.hkdf(WrapKeyInput(layer, shared));
    assert |key| == SECRET_LEN;
    var sealed := p.aeadSeal(key, nonce, epochSecret, []);
    var payload := ciphertext + nonce + sealed;
    assert payload[..1120] == ciphertext && payload[1120..1132] == nonce && payload[1132..] == sealed;
  }

  /** A wrapped secret has 1180 bytes on either layer, comes out on the layer it was wrapped for, and on
      the other layer is refused, short of an HKDF collision or of the AEAD opening under a second key. */
  lemma UnwrapOfWrap(p: Primitives, layer: Layer, epochSecret: bytes, public: bytes, private: bytes,
                     coins: Coins, nonce: bytes, layer': Layer)
    requires Lawful(p) && |nonce| == NONCE_LEN && IsKeyPair(p, public, private)
    requires WrapEpochSecret(p, layer, epochSecret, public, coins, nonce).Ok?
    ensures var payload := WrapEpochSecret(p, layer, epochSecret, public, coins, nonce).value;
      var shared := HybridEncap(p, public, coins, HKDF_INFO).value.1;
      var i, j := WrapKeyInput(layer, shared), WrapKeyInput(layer', shared);
      var r := UnwrapEpochSecret(p, layer', payload, private);
      && |payload| == WRAPPED_PAYLOAD_LEN == 1180
      && if layer == layer' then r == Ok(epochSecret)
         else r == Err(Unauthentic) || KdfCollision(p, i, j)
              || CrossKeyOpen(p, AeadCall(p.hkdf(i), nonce, epochSecret, []), p.hkdf(j))
  {
    hide HybridEncap, HybridDecap, IsKeyPair;
    var payload := WrapEpochSecret(p, layer, epochSecret, public, coins, nonce).value;
    var (ciphertext, shared) := HybridEncap(p, public, coins, HKDF_INFO).value;
    var call := AeadCall(p.hkdf(WrapKeyInput(layer, shared)), nonce, epochSecret, []);
    EncapLayout(p, public, coins, HKDF_INFO);
    DecapInvertsEncap(p, public, private, coins, HKDF_INFO);
    WrapLabelsDiffer();
    assert payload == ciphertext + nonce + Ciphertext(p, call);
    assert payload[..CIPHERTEXT_LEN] == ciphertext;
    assert payload[CIPHERTEXT_LEN..CIPHERTEXT_LEN + NONCE_LEN] == nonce;
    assert payload[CIPHERTEXT_LEN + NONCE_LEN..] == Ciphertext(p, call);
    assert |call.key| == SECRET_LEN;
  }

  /** The encryption that WrapEpochSecret performs. */
  function WrapCall(p: Primitives, layer: Layer, epochSecret: bytes, public: bytes, coins: Coins, nonce: bytes): AeadCall
    requires WrapEpochSecret(p, layer, epochSecret, public, coins, nonce).Ok?
  {
    AeadCall(p.hkdf(WrapKeyInput(layer, HybridEncap(p, public, coins, HKDF_INFO).value.1)), nonce, epochSecret, [])
  }

  lemma UnwrapByBox(p: Primitives, layer: Layer, payload: bytes, private: bytes)
    requires |payload| == WRAPPED_PAYLOAD_LEN
    ensures var x := payload[..CIPHERTEXT_LEN];
      UnwrapEpochSecret(p, layer, payload, private)
      == if DecapLegs(p, x, private).Err? then Err(Kem(Format))
         else match BoxOpen(p, x, private, WrapLabel(layer), payload[CIPHERTEXT_LEN..CIPHERTEXT_LEN + NONCE_LEN],
                            payload[CIPHERTEXT_LEN + NONCE_LEN..], [])
           case None => Err(Unauthentic)
           case Some(secret) => Ok(secret)
  {
    hide DecapLegs;
    KemRefusal(p, payload[..CIPHERTEXT_LEN], private);
  }

  /** The parts of a payload, and the key behind its KEM ciphertext. */
  lemma PayloadParts(p: Primitives, layer: Layer, epochSecret: bytes, public: bytes, private: bytes,
                     coins: Coins, nonce: bytes)
    requires Lawful(p) && |nonce| == NONCE_LEN && IsKeyPair(p, public, private)
    requires WrapEpochSecret(p, layer, epochSecret, public, coins, nonce).Ok?
    ensures var payload := WrapEpochSecret(p, layer, epochSecret, public, coins, nonce).value;
      var call := WrapCall(p, layer, epochSecret, public, coins, nonce);
      && |payload| == WRAPPED_PAYLOAD_LEN && payload[CIPHERTEXT_LEN..] == nonce + Ciphertext(p, call)
      && call.nonce == nonce && call.plaintext == epochSecret && call.aad == []
      && BoxKey(p, payload[..CIPHERTEXT_LEN], private, WrapLabel(layer)) == Some(call.key)
  {
    hide HybridEncap, HybridDecap, IsKeyPair;
    var (ciphertext, shared) := HybridEncap(p, public, coins, HKDF_INFO).value;
    var call := WrapCall(p, layer, epochSecret, public, coins, nonce);
    EncapLayout(p, public, coins, HKDF_INFO);
    DecapInvertsEncap(p, public, private, coins, HKDF_INFO);
    var payload := ciphertext + nonce + Ciphertext(p, call);
    assert payload[..CIPHERTEXT_LEN] == ciphertext && payload[CIPHERTEXT_LEN..] == nonce + Ciphertext(p, call);
    assert |call.key| == SECRET_LEN;
  }

  /** The outcome of unwrapping any byte string on the layer it was wrapped for: the secret comes out
      exactly where nonce and AEAD ciphertext are the wrapped ones behind a KEM ciphertext for the same key;
      everything else is refused, or the AEAD has accepted what was never wrapped. */
  lemma UnwrapExactly(p: Primitives, layer: Layer, epochSecret: bytes, public: bytes, private: bytes,
                      coins: Coins, nonce: bytes, payload': bytes)
    requires Lawful(p) && |nonce| == NONCE_LEN && IsKeyPair(p, public, private)
    requires WrapEpochSecret(p, layer, epochSecret, public, coins, nonce).Ok?
    ensures |WrapEpochSecret(p, layer, epochSecret, public, coins, nonce).value| == WRAPPED_PAYLOAD_LEN
    ensures var payload := WrapEpochSecret(p, layer, epochSecret, public, coins, nonce).value;
      var call := WrapCall(p, layer, epochSecret, public, coins, nonce);
      var r := UnwrapEpochSecret(p, layer, payload', private);
      if |payload'| != WRAPPED_PAYLOAD_LEN then r == Err(BadLength)
      else
        var x, x' := payload[..CIPHERTEXT_LEN], payload'[..CIPHERTEXT_LEN];
        match BoxKey(p, x', private, WrapLabel(layer))
        case None => r == Err(Kem(Format))
        case Some(key') =>
          if payload'[CIPHERTEXT_LEN..] == payload[CIPHERTEXT_LEN..] && OneKey(p, x, x', private, WrapLabel(layer))
          then r == Ok(epochSecret)
          else r == Err(Unauthentic)
               || AcceptsUnsealed(p, call, key', payload'[CIPHERTEXT_LEN..CIPHERTEXT_LEN + NONCE_LEN],
                                  payload'[CIPHERTEXT_LEN + NONCE_LEN..], [])
  {
    hide HybridDecap, DecapLegs, IsKeyPair, WrapEpochSecret, WrapCall, OneKey, WrapLabel;
    PayloadParts(p, layer, epochSecret, public, private, coins, nonce);
    var payload := WrapEpochSecret(p, layer, epochSecret, public, coins, nonce).value;
    var call := WrapCall(p, layer, epochSecret, public, coins, nonce);
    if |payload'| == WRAPPED_PAYLOAD_LEN {
      hide UnwrapEpochSecret;
      var x, x' := payload[..CIPHERTEXT_LEN], payload'[..CIPHERTEXT_LEN];
      var tail' := payload'[CIPHERTEXT_LEN..];
      var nonce', ct' := payload'[CIPHERTEXT_LEN..CIPHERTEXT_LEN + NONCE_LEN], payload'[CIPHERTEXT_LEN + NONCE_LEN..];
      UnwrapByBox(p, layer, payload', private);
      KemRefusal(p, x', private);
      BoxOpensExactly(p, x, private, WrapLabel(layer), call, x', WrapLabel(layer), nonce', ct', []);
      SplitTail(tail', nonce, Ciphertext(p, call));
      assert tail'[..NONCE_LEN] == nonce' && tail'[NONCE_LEN..] == ct';
    }
  }

  /** Not every changed payload is refused: with the top bit of its X25519 share flipped it still unwraps. */
  lemma FlippedPayloadUnwraps(p: Primitives, layer: Layer, epochSecret: bytes, public: bytes, private: bytes,
                              coins: Coins, nonce: bytes)
    requires Lawful(p) && MasksTopBit(p) && |nonce| == NONCE_LEN && IsKeyPair(p, public, private)
    requires WrapEpochSecret(p, layer, epochSecret, public, coins, nonce).Ok?
    ensures |WrapEpochSecret(p, layer, epochSecret, public, coins, nonce).value| == WRAPPED_PAYLOAD_LEN
    ensures var payload := WrapEpochSecret(p, layer, epochSecret, public, coins, nonce).value;
      FlipTopBit(payload) != payload && UnwrapEpochSecret(p, layer, FlipTopBit(payload), private) == Ok(epochSecret)
  {
    hide HybridDecap, DecapLegs, IsKeyPair, WrapEpochSecret, WrapCall, UnwrapEpochSecret, OneKey, WrapLabel;
    PayloadParts(p, layer, epochSecret, public, private, coins, nonce);
    var payload := WrapEpochSecret(p, layer, epochSecret, public, coins, nonce).value;
    var x := payload[..CIPHERTEXT_LEN];
    FlippedFront(payload, CIPHERTEXT_LEN);
    KemRefusal(p, x, private);
    FlippedOneKey(p, x, private, WrapLabel(layer));
    OneKeyExact(p, x, FlipTopBit(x), private, WrapLabel(layer));
    UnwrapExactly(p, layer, epochSecret, public, private, coins, nonce, FlipTopBit(payload));
  }

  // ---- ratchet state ----

  /** The fields of a ratchet as a value. Times are in seconds. */
  datatype State = State(layer: Layer, epoch: int, epochSecret: bytes, messageIndex: int,
                         rekeyMsgBound: int, rekeyAgeSeconds: int, epochStartedAt: real)
  {
    function Key(p: Primitives, index: int): Result<bytes, RatchetError> {
      DeriveMessageKey(p, layer, epochSecret, epoch, index)
    }

    function Advanced(): State {
      this.(messageIndex := messageIndex + 1)
    }

    predicate RekeyDue(now: real) {
      messageIndex >= rekeyMsgBound || now - epochStartedAt >= rekeyAgeSeconds as real
    }
  }

  class EpochRatchet {
    const layer: Layer
    var epoch: int
    var epochSecret: bytes
    var messageIndex: int
    var rekeyMsgBound: int
    var rekeyAgeSeconds: int
    var epochStartedAt: real

    function View(): State
      reads this
    {
      State(layer, epoch, epochSecret, messageIndex, rekeyMsgBound, rekeyAgeSeconds, epochStartedAt)
    }

    constructor (layer: Layer, epoch: int, epochSecret: bytes, epochStartedAt: real,
                 messageIndex: int := 0, rekeyMsgBound: int := DEFAULT_REKEY_MSG_BOUND,
                 rekeyAgeSeconds: int := DEFAULT_REKEY_AGE_SECONDS)
      ensures View() == State(layer, epoch, epochSecret, messageIndex, rekeyMsgBound, rekeyAgeSeconds, epochStartedAt)
    {
      this.layer := layer;
      this.epoch := epoch;
      this.epochSecret := epochSecret;
      this.messageIndex := messageIndex;
      this.rekeyMsgBound := rekeyMsgBound;
      this.rekeyAgeSeconds := rekeyAgeSeconds;
      this.epochStartedAt := epochStartedAt;
    }

    /** The key for an index, by default the next outbound one; nothing changes. */
    method MessageKey(p: Primitives, index: Option<int>) returns (r: Result<bytes, RatchetError>)
      ensures r == View().Key(p, if index.Some? then index.value else View().messageIndex)
    {
      var idx := if index == None then messageIndex else index.value;
      r := DeriveMessageKey(p, layer, epochSecret, epoch, idx);
    }

    /** The key of the next message, with the index to put on the wire. The counter moves by one, and
        only when there is a key. */
    method NextOutboundKey(p: Primitives) returns (r: Result<(int, bytes), RatchetError>)
      modifies this`messageIndex
      ensures match old(View()).Key(p, old(messageIndex))
              case Ok(key) => r == Ok((old(messageIndex), key)) && View() == old(View()).Advanced()
              case Err(e) => r == Err(e) && View() == old(View())
    {
      var idx := messageIndex;
      var key := DeriveMessageKey(p, layer, epochSecret, epoch, idx);
      if key.Err? {
        return Err(key.error);
      }
      messageIndex := messageIndex + 1;
      r := Ok((idx, key.value));
    }

    /** Whether the message count or the age asks for a new epoch. */
    method ShouldRekey(now: real) returns (due: bool)
      ensures due == View().RekeyDue(now)
    {
      if messageIndex >= rekeyMsgBound {
        return true;
      }
      due := now - epochStartedAt >= rekeyAgeSeconds as real;
    }
  }

  /** `message_key()` announces exactly what the following `next_outbound_key()` returns. */
  method PeekThenSend(p: Primitives, r: EpochRatchet)
    returns (peeked: Result<bytes, RatchetError>, sent: Result<(int, bytes), RatchetError>)
    modifies r`messageIndex
    ensures peeked.Ok? <==> sent.Ok?
    ensures sent.Ok? ==> sent.value == (old(r.messageIndex), peeked.value) && r.messageIndex == old(r.messageIndex) + 1
    ensures sent.Err? ==> r.messageIndex == old(r.messageIndex)
  {
    peeked := r.MessageKey(p, None);
    sent := r.NextOutboundKey(p);
  }

  // ---- runs of a sender and a receiver over a lossy network ----

  /** A message on the wire; `key` is what the sender encrypted it with. */
  datatype Packet = Packet(index: int, key: bytes)

  /** The sender sends; the network hands packet number k to the receiver, which may happen never,
      repeatedly and in any order; or the receiver itself sends, moving its own counter. */
  datatype Event = Send | Deliver(k: nat) | ReceiverSend

  datatype Delivery = Delivery(k: nat, key: Result<bytes, RatchetError>)

  datatype World = World(sender: State, receiver: State, sent: seq<Packet>, received: seq<Delivery>)

  function Step(p: Primitives, w: World, e: Event): World {
    match e
    case Send =>
      (match w.sender.Key(p, w.sender.messageIndex)
       case Err(_) => w
       case Ok(key) => w.(sender := w.sender.Advanced(), sent := w.sent + [Packet(w.sender.messageIndex, key)]))
    case Deliver(k) =>
      if k >= |w.sent| then w
      else w.(received := w.received + [Delivery(k, w.receiver.Key(p, w.sent[k].index))])
    case ReceiverSend =>
      if w.receiver.Key(p, w.receiver.messageIndex).Ok? then w.(receiver := w.receiver.Advanced()) else w
  }

  function Run(p: Primitives, w: World, events: seq<Event>): World
    decreases |events|
  {
    if events == [] then w else Run(p, Step(p, w, events[0]), events[1..])
  }

  /** Both ends derive keys for the same conversation epoch. */
  ghost predicate SameEpoch(a: State, b: State) {
    a.layer == b.layer && a.epochSecret == b.epochSecret && a.epoch % TWO64 == b.epoch % TWO64
  }

  function Start(sender: State, receiver: State): World {
    World(sender, receiver, [], [])
  }

  /** What holds in every state that a run from (sender, receiver) can reach. */
  ghost predicate RunInvariant(p: Primitives, sender: State, receiver: State, w: World) {
    && w.sender == sender.(messageIndex := sender.messageIndex + |w.sent|)
    && w.receiver == receiver.(messageIndex := w.receiver.messageIndex)
    && (forall j :: 0 <= j < |w.sent| ==>
          w.sent[j].index == sender.messageIndex + j && sender.Key(p, sender.messageIndex + j) == Ok(w.sent[j].key))
    && (forall d :: 0 <= d < |w.received| ==>
          w.received[d].k < |w.sent| && w.received[d].key == Ok(w.sent[w.received[d].k].key))
  }

  lemma SameKeys(p: Primitives, a: State, b: State, index: int)
    requires SameEpoch(a, b)
    ensures a.Key(p, index) == b.Key(p, index)
  {
    MessageKeyInputEqual(a.layer, a.epochSecret, a.epoch, index, b.layer, b.epochSecret, b.epoch, index);
  }

  lemma StepKeepsInvariant(p: Primitives, sender: State, receiver: State, w: World, e: Event)
    requires SameEpoch(sender, receiver) && RunInvariant(p, sender, receiver, w)
    ensures RunInvariant(p, sender, receiver, Step(p, w, e))
  {
    hide DeriveMessageKey;
    if e.Deliver? && e.k < |w.sent| {
      SameKeys(p, sender, receiver, w.sent[e.k].index);
    }
  }

  lemma {:induction false} RunKeepsInvariant(p: Primitives, sender: State, receiver: State, w: World, events: seq<Event>)
    requires SameEpoch(sender, receiver) && RunInvariant(p, sender, receiver, w)
    ensures RunInvariant(p, sender, receiver, Run(p, w, events))
    decreases |events|
  {
    hide RunInvariant, SameEpoch, Step;
    if events != [] {
      StepKeepsInvariant(p, sender, receiver, w, events[0]);
      RunKeepsInvariant(p, sender, receiver, Step(p, w, events[0]), events[1..]);
    }
  }

  /** For every interleaving of sends and of lossy, repeated, reordered deliveries: the sent indices are
      consecutive, and each delivered packet gives the receiver the key it was sent with. */
  lemma RunsAgree(p: Primitives, sender: State, receiver: State, events: seq<Event>)
    requires SameEpoch(sender, receiver)
    ensures var w := Run(p, Start(sender, receiver), events);
      && (forall j :: 0 <= j < |w.sent| ==> w.sent[j].index == sender.messageIndex + j)
      && (forall d :: 0 <= d < |w.received| ==>
            w.received[d].k < |w.sent| && w.received[d].key == Ok(w.sent[w.received[d].k].key))
      && w.sender.messageIndex == sender.messageIndex + |w.sent|
  {
    hide Run;
    RunKeepsInvariant(p, sender, receiver, Start(sender, receiver), events);
  }

  /** In any run the derivations behind two messages differ unless the messages are a multiple of 2^64
      apart; so up to 2^64 messages repeat a key only by an HKDF collision. */
  lemma RunRepeatsNoDerivation(p: Primitives, sender: State, receiver: State, events: seq<Event>, j: nat, k: nat)
    requires SameEpoch(sender, receiver)
    requires j < k < |Run(p, Start(sender, receiver), events).sent|
    ensures var w := Run(p, Start(sender, receiver), events);
      var a := MessageKeyInput(sender.layer, sender.epochSecret, sender.epoch, w.sent[j].index);
      var b := MessageKeyInput(sender.layer, sender.epochSecret, sender.epoch, w.sent[k].index);
      && (a == b <==> (k - j) % TWO64 == 0)
      && (|w.sent| <= TWO64 ==> a != b && (w.sent[j].key == w.sent[k].key ==> KdfCollision(p, a, b)))
  {
    hide Run, MessageKeyInput;
    RunKeepsInvariant(p, sender, receiver, Start(sender, receiver), events);
    var w := Run(p, Start(sender, receiver), events);
    var i := sender.messageIndex;
    MessageKeyInputEqual(sender.layer, sender.epochSecret, sender.epoch, i + j,
                         sender.layer, sender.epochSecret, sender.epoch, i + k);
    ModDifference(i + j, i + k);
    assert sender.Key(p, i + j) == Ok(w.sent[j].key) && sender.Key(p, i + k) == Ok(w.sent[k].key);
  }

  lemma ModDifference(a: int, b: int)
    ensures a % TWO64 == b % TWO64 <==> (b - a) % TWO64 == 0
  {
  }

  /** From key exchange to messages: a receiver that unwraps the epoch secret with its private key derives
      the sender's key for every packet of every run. */
  lemma ConversationAgrees(p: Primitives, sender: State, receiver: State, public: bytes, private: bytes,
                           coins: Coins, nonce: bytes, events: seq<Event>)
    requires Lawful(p) && |nonce| == NONCE_LEN && IsKeyPair(p, public, private)
    requires WrapEpochSecret(p, sender.layer, sender.epochSecret, public, coins, nonce).Ok?
    requires var payload := WrapEpochSecret(p, sender.layer, sender.epochSecret, public, coins, nonce).value;
      UnwrapEpochSecret(p, sender.layer, payload, private) == Ok(receiver.epochSecret)
    requires receiver.layer == sender.layer && receiver.epoch == sender.epoch
    ensures var w := Run(p, Start(sender, receiver), events);
      forall d :: 0 <= d < |w.received| ==>
        w.received[d].k < |w.sent| && w.received[d].key == Ok(w.sent[w.received[d].k].key)
  {
    hide WrapEpochSecret, UnwrapEpochSecret, Run, IsKeyPair, Lawful;
    UnwrapOfWrap(p, sender.layer, sender.epochSecret, public, private, coins, nonce, sender.layer);
    RunsAgree(p, sender, receiver, events);
  }

  // ---- the rekey policy over runs ----

  /** Use of one ratchet over time: sending, and asking whether to rekey. */
  datatype Use = Sending | Asking(now: real)

  /** The state after an attempt to send: the counter moves only when there is a key. */
  function AfterSend(p: Primitives, s: State): State {
    if s.Key(p, s.messageIndex).Ok? then s.Advanced() else s
  }

  /** The answers that the askings of a run receive. */
  function Answers(p: Primitives, s: State, uses: seq<Use>): seq<bool>
    decreases |uses|
  {
    if uses == [] then []
    else match uses[0]
      case Sending => Answers(p, AfterSend(p, s), uses[1..])
      case Asking(now) => [s.RekeyDue(now)] + Answers(p, s, uses[1..])
  }

  /** Time does not run backwards. */
  ghost predicate Monotone(uses: seq<Use>) {
    forall i, j :: 0 <= i < j < |uses| && uses[i].Asking? && uses[j].Asking? ==> uses[i].now <= uses[j].now
  }

  lemma {:induction false} DueStaysDue(p: Primitives, s: State, now: real, uses: seq<Use>)
    requires s.RekeyDue(now)
    requires forall i :: 0 <= i < |uses| && uses[i].Asking? ==> now <= uses[i].now
    ensures forall i :: 0 <= i < |Answers(p, s, uses)| ==> Answers(p, s, uses)[i]
    decreases |uses|
  {
    if uses != [] {
      DueStaysDue(p, if uses[0].Sending? then AfterSend(p, s) else s, now, uses[1..]);
    }
  }

  /** Within an epoch the policy never takes its word back. */
  lemma {:induction false} RekeyIsFinal(p: Primitives, s: State, uses: seq<Use>, i: nat, j: nat)
    requires Monotone(uses) && i <= j < |Answers(p, s, uses)| && Answers(p, s, uses)[i]
    ensures Answers(p, s, uses)[j]
    decreases |uses|
  {
    var rest := uses[1..];
    assert forall a, b :: 0 <= a < b < |rest| ==> uses[a + 1] == rest[a] && uses[b + 1] == rest[b];
    if uses[0].Sending? {
      RekeyIsFinal(p, AfterSend(p, s), rest, i, j);
    } else if i == 0 {
      DueStaysDue(p, s, uses[0].now, rest);
    } else {
      RekeyIsFinal(p, s, rest, i - 1, j - 1);
    }
  }

  /** A sender that asks before each send, at the given times, and sends only when told it need not rekey.
      The result is what it sends: time and index. */
  function Careful(p: Primitives, s: State, times: seq<real>): seq<(real, int)>
    decreases |times|
  {
    if times == [] then []
    else if s.RekeyDue(times[0]) || s.Key(p, s.messageIndex).Err? then Careful(p, s, times[1..])
    else [(times[0], s.messageIndex)] + Careful(p, s.Advanced(), times[1..])
  }

  /** How many of the times lie before the age limit. */
  function Young(s: State, times: seq<real>): nat {
    if times == [] then 0
    else (if times[0] - s.epochStartedAt < s.rekeyAgeSeconds as real then 1 else 0) + Young(s, times[1..])
  }

  function Min(a: int, b: int): int {
    if a <= b then a else b
  }

  lemma {:induction false} YoungAdvanced(s: State, times: seq<real>)
    ensures Young(s.Advanced(), times) == Young(s, times)
  {
    if times != [] {
      YoungAdvanced(s, times[1..]);
    }
  }

  /** Such a sender emits, up to the message bound, one message for each time before the age limit, with
      consecutive indices; never more than the bound allows and never a late one. */
  lemma {:induction false} CarefulSenderIsBounded(p: Primitives, s: State, times: seq<real>)
    requires |s.epochSecret| == EPOCH_SECRET_LEN
    ensures var sent := Careful(p, s, times);
      && |sent| == Min(if s.messageIndex < s.rekeyMsgBound then s.rekeyMsgBound - s.messageIndex else 0, Young(s, times))
      && (forall i :: 0 <= i < |sent| ==>
            && sent[i].0 - s.epochStartedAt < s.rekeyAgeSeconds as real
            && sent[i].1 == s.messageIndex + i < s.rekeyMsgBound)
    decreases |times|
  {
    if times != [] {
      var next := if s.RekeyDue(times[0]) then s else s.Advanced();
      CarefulSenderIsBounded(p, next, times[1..]);
      YoungAdvanced(s, times[1..]);
    }
  }
}
