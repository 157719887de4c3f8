/** Every HKDF derivation of the package, side by side: no two purposes share a (salt, info) pair. */
module DomainSeparation {
  import opened Basics
  import opened Crypto
  import PqDm
  import PqKem
  import PqRoute
  import Pqdm2
  import Ratchet

  /** A derivation that the package performs, with the label part of its arguments. */
  datatype Purpose =
    | Combine(xSecret: bytes, mlkemSecret: bytes)
    | PqdmWrap(shared: bytes, aad: bytes)
    | Pqdm2Wrap(shared: bytes)
    | RouteWrap(shared: bytes, header: bytes)
    | EpochWrap(layer: Ratchet.Layer, shared: bytes)
    | MessageKey(layer: Ratchet.Layer, epochSecret: bytes, epoch: int, index: int)

  function Derivation(u: Purpose): KdfInput {
    match u
    case Combine(x, m) => PqKem.CombinerInput(x, m, PqKem.HKDF_INFO)
    case PqdmWrap(shared, aad) => PqDm.WrapKeyInput(shared, aad)
    case Pqdm2Wrap(shared) => Pqdm2.WrapKeyInput(shared)
    case RouteWrap(shared, header) => PqRoute.WrapKeyInput(shared, PqRoute.Aad(header))
    case EpochWrap(layer, shared) => Ratchet.WrapKeyInput(layer, shared)
    case MessageKey(layer, secret, epoch, index) => Ratchet.MessageKeyInput(layer, secret, epoch, index)
  }

  /** The salt as HMAC uses it: filled up with zeros to its 64-byte block (section 2 of RFC 2104), so
      that an absent salt is a block of zeros. */
  function SaltBlock(salt: bytes): (b: bytes)
    requires |salt| <= 64
    ensures |b| == 64
  {
    salt + Zeros(64 - |salt|)
  }

  /** Two purposes with the same label: they differ at most in their key material. */
  predicate SameLabel(u: Purpose, v: Purpose) {
    match (u, v)
    case (Combine(_, _), Combine(_, _)) => true
    case (PqdmWrap(_, aad), PqdmWrap(_, aad')) => aad == aad'
    case (Pqdm2Wrap(_), Pqdm2Wrap(_)) => true
    case (RouteWrap(_, header), RouteWrap(_, header')) => header == header'
    case (EpochWrap(layer, _), EpochWrap(layer', _)) => layer == layer'
    case (MessageKey(layer, _, epoch, index), MessageKey(layer', _, epoch', index')) =>
      layer == layer' && epoch % TWO64 == epoch' % TWO64 && index % TWO64 == index' % TWO64
    case _ => false
  }

  /** The kind of purpose, and for the ratchets the layer. */
  function Kind(u: Purpose): nat {
    match u
    case Combine(_, _) => 0
    case PqdmWrap(_, _) => 1
    case Pqdm2Wrap(_) => 2
    case RouteWrap(_, _) => 3
    case EpochWrap(layer, _) => if layer.Dm? then 4 else 5
    case MessageKey(layer, _, _, _) => if layer.Dm? then 6 else 7
  }

  /** The kind, read off the info string alone. */
  function KindOfInfo(info: bytes): nat
    requires |info| >= 10
  {
    if info[0] == 'p' as int then 2
    else if info[2] == '_' as int then 0
    else if |info| < 22 then 1
    else if info[3] == 'o' as int then if info[10] == 'd' as int then 1 else 3
    else if info[7] == 'd' as int then if info[18] == 'e' as int then 4 else 6
    else if info[21] == 'e' as int then 5 else 7
  }

  lemma LongPrefixShowsKind(prefix: bytes, info: bytes)
    requires 22 <= |prefix| && prefix <= info
    ensures KindOfInfo(info) == KindOfInfo(prefix)
  {
  }

  lemma LabelKinds()
    ensures KindOfInfo(PqRoute.INFO_WRAP) == 3
    ensures KindOfInfo(Ratchet.WrapLabel(Ratchet.Dm)) == 4 && KindOfInfo(Ratchet.WrapLabel(Ratchet.Group)) == 5
    ensures KindOfInfo(Ratchet.MessageLabel(Ratchet.Dm)) == 6 && KindOfInfo(Ratchet.MessageLabel(Ratchet.Group)) == 7
  {
  }

  lemma InfoShowsKind(u: Purpose)
    ensures |Derivation(u).salt| <= 64 && |Derivation(u).info| >= 10
    ensures KindOfInfo(Derivation(u).info) == Kind(u)
  {
    hide KindOfInfo;
    match u
    case Combine(_, _) => ShortInfo(u);
    case PqdmWrap(_, _) => PqdmInfo(u);
    case Pqdm2Wrap(_) => ShortInfo(u);
    case RouteWrap(_, header) => RouteInfo(u);
    case EpochWrap(layer, _) => LabelKinds();
    case MessageKey(layer, _, _, _) => MessageInfo(u);
  }

  lemma ShortInfo(u: Purpose)
    requires u.Combine? || u.Pqdm2Wrap?
    ensures |Derivation(u).info| >= 10 && KindOfInfo(Derivation(u).info) == (if u.Combine? then 0 else 2)
  {
    assert Ascii("sk_pqc/x25519-mlkem768/v1")[2] == '_' as int && Ascii("sk_pqc/x25519-mlkem768/v1")[0] == 's' as int;
    assert Ascii("pqdm2-wrap")[0] == 'p' as int;
  }

  lemma PqdmInfo(u: Purpose)
    requires u.PqdmWrap?
    ensures |Derivation(u).info| >= 10 && KindOfInfo(Derivation(u).info) == 1
  {
    var l := Ascii("skcomms/pqdm/wrap/v1");
    var info := Derivation(u).info;
    assert info[0] == l[0] && info[2] == l[2] && info[3] == l[3] && info[10] == l[10];
  }

  lemma RouteInfo(u: Purpose)
    requires u.RouteWrap?
    ensures |Derivation(u).info| >= 22 && KindOfInfo(Derivation(u).info) == 3 && |Derivation(u).salt| == 0
  {
    hide KindOfInfo;
    LabelKinds();
    assert |PqRoute.INFO_WRAP| == 23;
    LongPrefixShowsKind(PqRoute.INFO_WRAP, Derivation(u).info);
  }

  lemma MessageInfo(u: Purpose)
    requires u.MessageKey?
    ensures var info := Derivation(u).info;
      |info| >= 22 && KindOfInfo(info) == (if u.layer.Dm? then 6 else 7) && |Derivation(u).salt| <= 24
  {
    hide U64, KindOfInfo;
    LabelKinds();
    assert 22 <= |Ratchet.MessageLabel(u.layer)| && |Ratchet.EpochLabel(u.layer)| <= 16;
    LongPrefixShowsKind(Ratchet.MessageLabel(u.layer), Derivation(u).info);
  }

  lemma SaltBlockInjective(s: bytes, t: bytes)
    requires |s| == |t| <= 64
    ensures SaltBlock(s) == SaltBlock(t) <==> s == t
  {
    assert SaltBlock(s)[..|s|] == s && SaltBlock(t)[..|t|] == t;
  }

  lemma SameKindExact(u: Purpose, v: Purpose)
    requires Kind(u) == Kind(v)
    ensures |Derivation(u).salt| == |Derivation(v).salt|
    ensures Derivation(u).salt == Derivation(v).salt && Derivation(u).info == Derivation(v).info <==> SameLabel(u, v)
  {
    hide U64, Ratchet.MessageKeyInput;
    match u
    case PqdmWrap(_, aad) => DropPrefix(PqDm.INFO_WRAP + [PqDm.PIPE], aad, v.aad);
    case RouteWrap(_, header) =>
      PqRoute.AadInjective(header, v.header);
      DropPrefix(PqRoute.INFO_WRAP + [PqRoute.PIPE], PqRoute.Aad(header), PqRoute.Aad(v.header));
    case MessageKey(layer, _, epoch, index) => SameMessageLabel(layer, epoch, index, v.epoch, v.index, u.epochSecret, v.epochSecret);
    case _ =>
  }

  lemma DropPrefix(a: bytes, b: bytes, c: bytes)
    ensures a + b == a + c <==> b == c
  {
    assert (a + b)[|a|..] == b && (a + c)[|a|..] == c;
  }

  lemma SameMessageLabel(layer: Ratchet.Layer, epoch: int, index: int, epoch': int, index': int, s: bytes, s': bytes)
    ensures var i, j := Ratchet.MessageKeyInput(layer, s, epoch, index), Ratchet.MessageKeyInput(layer, s', epoch', index');
      && |i.salt| == |j.salt|
      && (i.salt == j.salt && i.info == j.info <==> epoch % TWO64 == epoch' % TWO64 && index % TWO64 == index' % TWO64)
  {
    hide U64, Ratchet.EpochLabel, Ratchet.MessageLabel;
    Ratchet.MessageKeyInputEqual(layer, s, epoch, index, layer, s, epoch', index');
  }

  /** Two derivations of the package use one (salt, info) pair, salts compared as HMAC sees them, exactly
      when they have the same purpose with the same AAD, layer, epoch and index (modulo 2^64). */
  lemma LabelsSeparate(u: Purpose, v: Purpose)
    ensures |Derivation(u).salt| <= 64 && |Derivation(v).salt| <= 64
    ensures SaltBlock(Derivation(u).salt) == SaltBlock(Derivation(v).salt) && Derivation(u).info == Derivation(v).info
       <==> SameLabel(u, v)
  {
    hide Derivation;
    InfoShowsKind(u);
    InfoShowsKind(v);
    if Kind(u) == Kind(v) {
      SameKindExact(u, v);
      SaltBlockInjective(Derivation(u).salt, Derivation(v).salt);
    }
  }

  /** So keys of different purposes, such as a direct-message key and a group key, coincide only by an
      HKDF collision. */
  lemma PurposesShareNoKey(p: Primitives, u: Purpose, v: Purpose)
    requires !SameLabel(u, v) && p.hkdf(Derivation(u)) == p.hkdf(Derivation(v))
    ensures KdfCollision(p, Derivation(u), Derivation(v))
  {
    hide Derivation, SameLabel;
    LabelsSeparate(u, v);
  }
}
