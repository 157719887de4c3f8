/** UTF-8 as Python's codec implements it: strict encoding and decoding, and decoding with
    errors="replace" (section 3 of RFC 3629; one U+FFFD for each maximal ill-formed part). */
module Utf8 {
  import opened Basics

  predicate IsSurrogate(c: codepoint) {
    0xD800 <= c <= 0xDFFF
  }

  /** A string that `str.encode("utf-8")` accepts. */
  ghost predicate IsScalarText(t: text) {
    forall i :: 0 <= i < |t| ==> !IsSurrogate(t[i])
  }

  function EncodeChar(c: codepoint): (b: bytes)
    ensures 1 <= |b| <= 4
  {
    if c < 0x80 then [c]
    else if c < 0x800 then [0xC0 + c / 0x40, 0x80 + c % 0x40]
    else if c < 0x1_0000 then [0xE0 + c / 0x40 / 0x40, 0x80 + c / 0x40 % 0x40, 0x80 + c % 0x40]
    else [0xF0 + c / 0x40 / 0x40 / 0x40, 0x80 + c / 0x40 / 0x40 % 0x40, 0x80 + c / 0x40 % 0x40, 0x80 + c % 0x40]
  }

  /** `t.encode("utf-8")`, None for the UnicodeEncodeError a lone surrogate raises. */
  function Encode(t: text): Option<bytes> {
    if t == [] then Some([])
    else if IsSurrogate(t[0]) then None
    else match Encode(t[1..])
      case None => None
      case Some(rest) => Some(EncodeChar(t[0]) + rest)
  }

  predicate IsTail(b: byte) {
    0x80 <= b < 0xC0
  }

  /** The number of continuation bytes that lead byte b announces; None when b cannot lead. */
  function TailCount(b: byte): (n: Option<nat>)
    ensures n.Some? ==> n.value <= 3
  {
    if b < 0x80 then Some(0)
    else if 0xC2 <= b < 0xE0 then Some(1)
    else if 0xE0 <= b < 0xF0 then Some(2)
    else if 0xF0 <= b < 0xF5 then Some(3)
    else None
  }

  /** Second bytes are restricted further, against overlong forms, surrogates and values past U+10FFFF. */
  predicate IsSecond(lead: byte, b: byte) {
    && IsTail(b)
    && (lead == 0xE0 ==> 0xA0 <= b)
    && (lead == 0xED ==> b < 0xA0)
    && (lead == 0xF0 ==> 0x90 <= b)
    && (lead == 0xF4 ==> b < 0x90)
  }

  /** How many of the n continuation bytes announced by b[0] are really there. */
  function TailPresent(b: bytes, n: nat): (k: nat)
    requires b != [] && n <= 3
    ensures k <= n && k < |b|
    ensures k >= 1 ==> IsSecond(b[0], b[1])
    ensures k >= 2 ==> IsTail(b[2])
    ensures k >= 3 ==> IsTail(b[3])
  {
    if n < 1 || |b| < 2 || !IsSecond(b[0], b[1]) then 0
    else if n < 2 || |b| < 3 || !IsTail(b[2]) then 1
    else if n < 3 || |b| < 4 || !IsTail(b[3]) then 2
    else 3
  }

  /** The value carried by a well-formed sequence of n + 1 bytes. */
  function Scalar(b: bytes, n: nat): (c: codepoint)
    requires b != [] && n <= 3 && TailCount(b[0]) == Some(n) && TailPresent(b, n) == n
  {
    var b0: int := b[0];
    if n == 0 then b0
    else if n == 1 then (b0 - 0xC0) * 0x40 + (b[1] as int - 0x80)
    else if n == 2 then ((b0 - 0xE0) * 0x40 + (b[1] as int - 0x80)) * 0x40 + (b[2] as int - 0x80)
    else (((b0 - 0xF0) * 0x40 + (b[1] as int - 0x80)) * 0x40 + (b[2] as int - 0x80)) * 0x40 + (b[3] as int - 0x80)
  }

  /** One step of the decoder: the scalar read or None for an error, and the bytes it covers. */
  datatype Step = Step(scalar: Option<codepoint>, length: nat)

  function DecodeStep(b: bytes): (r: Step)
    requires b != []
    ensures 1 <= r.length <= |b|
  {
    match TailCount(b[0])
    case None => Step(None, 1)
    case Some(n) =>
      var k := TailPresent(b, n);
      if k < n then Step(None, k + 1)
      else Step(Some(Scalar(b, n)), n + 1)
  }

  /** `b.decode("utf-8")`, None for UnicodeDecodeError. */
  function Decode(b: bytes): Option<text>
    decreases |b|
  {
    if b == [] then Some([])
    else
      var s := DecodeStep(b);
      match (s.scalar, Decode(b[s.length..]))
      case (Some(c), Some(rest)) => Some([c] + rest)
      case _ => None
  }

  const REPLACEMENT: codepoint := 0xFFFD

  /** `b.decode("utf-8", "replace")` */
  function DecodeReplace(b: bytes): text
    decreases |b|
  {
    if b == [] then []
    else
      var s := DecodeStep(b);
      [if s.scalar.Some? then s.scalar.value else REPLACEMENT] + DecodeReplace(b[s.length..])
  }

  // ---- the step inverts EncodeChar, in both directions ----

  lemma StepOfEncoded(c: codepoint, rest: bytes)
    requires !IsSurrogate(c)
    ensures DecodeStep(EncodeChar(c) + rest) == Step(Some(c), |EncodeChar(c)|)
  {
    var e := EncodeChar(c);
    var b := e + rest;
    assert forall i :: 0 <= i < |e| ==> b[i] == e[i];
  }

  lemma EncodedScalar(b: bytes, n: nat)
    requires b != [] && n <= 3 && TailCount(b[0]) == Some(n) && TailPresent(b, n) == n
    ensures !IsSurrogate(Scalar(b, n)) && EncodeChar(Scalar(b, n)) == b[..n + 1]
  {
    var c: codepoint := Scalar(b, n);
    if n == 1 {
      TwoBytes(b[0], b[1], c);
      assert b[..2] == [b[0], b[1]];
    } else if n == 2 {
      ThreeBytes(b[0], b[1], b[2], c);
      assert b[..3] == [b[0], b[1], b[2]];
    } else if n == 3 {
      FourBytes(b[0], b[1], b[2], b[3], c);
      assert b[..4] == [b[0], b[1], b[2], b[3]];
    }
  }

  lemma TwoBytes(b0: byte, b1: byte, c: codepoint)
    requires 0xC2 <= b0 < 0xE0 && 0x80 <= b1 < 0xC0
    requires c == (b0 as int - 0xC0) * 0x40 + (b1 as int - 0x80)
    ensures !IsSurrogate(c) && EncodeChar(c) == [b0, b1]
  {
  }

  lemma ThreeBytes(b0: byte, b1: byte, b2: byte, c: codepoint)
    requires 0xE0 <= b0 < 0xF0 && IsSecond(b0, b1) && 0x80 <= b2 < 0xC0
    requires c == ((b0 as int - 0xE0) * 0x40 + (b1 as int - 0x80)) * 0x40 + (b2 as int - 0x80)
    ensures !IsSurrogate(c) && EncodeChar(c) == [b0, b1, b2]
  {
    assert c / 0x40 == (b0 as int - 0xE0) * 0x40 + (b1 as int - 0x80);
  }

  lemma FourBytes(b0: byte, b1: byte, b2: byte, b3: byte, c: codepoint)
    requires 0xF0 <= b0 < 0xF5 && IsSecond(b0, b1) && 0x80 <= b2 < 0xC0 && 0x80 <= b3 < 0xC0
    requires c == (((b0 as int - 0xF0) * 0x40 + (b1 as int - 0x80)) * 0x40 + (b2 as int - 0x80)) * 0x40 + (b3 as int - 0x80)
    ensures !IsSurrogate(c) && EncodeChar(c) == [b0, b1, b2, b3]
  {
    assert c / 0x40 == ((b0 as int - 0xF0) * 0x40 + (b1 as int - 0x80)) * 0x40 + (b2 as int - 0x80);
    assert c / 0x40 / 0x40 == (b0 as int - 0xF0) * 0x40 + (b1 as int - 0x80);
  }

  lemma EncodedOfStep(b: bytes)
    requires b != [] && DecodeStep(b).scalar.Some?
    ensures var s := DecodeStep(b);
      !IsSurrogate(s.scalar.value) && EncodeChar(s.scalar.value) == b[..s.length]
  {
    hide Scalar, EncodeChar;
    EncodedScalar(b, TailCount(b[0]).value);
  }

  lemma {:induction false} EncodeSucceeds(t: text)
    ensures Encode(t).Some? <==> IsScalarText(t)
  {
    if t != [] {
      EncodeSucceeds(t[1..]);
      assert forall i :: 1 <= i < |t| ==> t[i] == t[1..][i - 1];
    }
  }

  /** Both decoders undo the encoder. */
  lemma {:induction false} DecodeEncode(t: text)
    requires Encode(t).Some?
    ensures Decode(Encode(t).value) == Some(t)
    ensures DecodeReplace(Encode(t).value) == t
  {
    hide DecodeStep, EncodeChar;
    if t != [] {
      var b := Encode(t).value;
      var rest := Encode(t[1..]).value;
      StepOfEncoded(t[0], rest);
      assert b[|EncodeChar(t[0])|..] == rest;
      DecodeEncode(t[1..]);
      assert t == [t[0]] + t[1..];
    }
  }

  lemma EncodePrepend(c: codepoint, e: bytes, t: text, b: bytes)
    requires !IsSurrogate(c) && EncodeChar(c) == e && Encode(t) == Some(b)
    ensures Encode([c] + t) == Some(e + b)
  {
    assert ([c] + t)[1..] == t;
  }

  /** The strict decoder accepts nothing but encodings. */
  lemma {:induction false} EncodeDecode(b: bytes)
    requires Decode(b).Some?
    ensures Encode(Decode(b).value) == Some(b)
    decreases |b|
  {
    hide DecodeStep, EncodeChar;
    if b != [] {
      var s := DecodeStep(b);
      var rest := b[s.length..];
      EncodedOfStep(b);
      EncodeDecode(rest);
      EncodePrepend(s.scalar.value, b[..s.length], Decode(rest).value, rest);
      assert b == b[..s.length] + rest;
    }
  }

  lemma EncodeInjective(s: text, t: text)
    requires Encode(s).Some? && Encode(s) == Encode(t)
    ensures s == t
  {
    DecodeEncode(s);
    DecodeEncode(t);
  }

  lemma ReplaceFirst(b: bytes, t: text) returns (n: nat)
    requires b != [] && DecodeReplace(b) == t && REPLACEMENT !in t
    ensures 1 <= n <= |b| && t != []
    ensures !IsSurrogate(t[0]) && EncodeChar(t[0]) == b[..n] && DecodeReplace(b[n..]) == t[1..]
  {
    assert t[0] in t;
    n := DecodeStep(b).length;
    EncodedOfStep(b);
  }

  /** Text without U+FFFD is what replacement decoding yields for its own encoding and no other bytes. */
  lemma {:induction false} DecodeReplaceExact(b: bytes, t: text)
    requires REPLACEMENT !in t
    ensures DecodeReplace(b) == t <==> Encode(t) == Some(b)
    decreases |b|
  {
    hide DecodeStep, EncodeChar;
    if Encode(t) == Some(b) {
      DecodeEncode(t);
    }
    if DecodeReplace(b) == t && b != [] {
      var n := ReplaceFirst(b, t);
      DecodeReplaceExact(b[n..], t[1..]);
      EncodePrepend(t[0], b[..n], t[1..], b[n..]);
      assert b == b[..n] + b[n..] && t == [t[0]] + t[1..];
    }
  }

  /** With U+FFFD it is not: a byte that is no UTF-8 at all decodes to the same text. */
  lemma ReplacementAmbiguous()
    ensures DecodeReplace([0xFF]) == [REPLACEMENT] && DecodeReplace([0xEF, 0xBF, 0xBD]) == [REPLACEMENT]
  {
    var b: bytes := [0xFF];
    assert b[1..] == [];
    var e: bytes := [0xEF, 0xBF, 0xBD];
    assert e[3..] == [];
  }

  lemma {:induction false} EncodeAppend(s: text, t: text)
    ensures Encode(s + t) == match (Encode(s), Encode(t))
                             case (Some(a), Some(b)) => Some(a + b)
                             case _ => None
  {
    if s == [] {
      assert s + t == t;
      if Encode(t).Some? {
        assert [] + Encode(t).value == Encode(t).value;
      }
    } else {
      assert (s + t)[1..] == s[1..] + t;
      EncodeAppend(s[1..], t);
      if Encode(s).Some? && Encode(t).Some? {
        assert EncodeChar(s[0]) + (Encode(s[1..]).value + Encode(t).value) == Encode(s).value + Encode(t).value;
      }
    }
  }

  lemma {:induction false} EncodeAscii(t: seq<ascii>)
    ensures Encode(t) == Some(t)
  {
    if t != [] {
      EncodeAscii(t[1..]);
      assert t == [t[0]] + t[1..];
    }
  }

  // ---- the code, bit by bit ----

  /** One to four bytes by the size of the code point, the marker bits of each byte, and the code point's bits
      six to a continuation byte (section 3 of RFC 3629). */
  lemma EncodeCharExact(c: codepoint)
    ensures var e := EncodeChar(c);
      && |e| == (if c < 0x80 then 1 else if c < 0x800 then 2 else if c < 0x1_0000 then 3 else 4)
      && (forall i :: 1 <= i < |e| ==> 0x80 <= e[i] < 0xC0)
      && (|e| == 1 ==> e[0] as int == c)
      && (|e| == 2 ==> 0xC0 <= e[0] < 0xE0 && c == (e[0] as int - 0xC0) * 0x40 + (e[1] as int - 0x80))
      && (|e| == 3 ==> && 0xE0 <= e[0] < 0xF0
                       && c == (e[0] as int - 0xE0) * 0x1000 + (e[1] as int - 0x80) * 0x40 + (e[2] as int - 0x80))
      && (|e| == 4 ==> && 0xF0 <= e[0] < 0xF8
                       && c == (e[0] as int - 0xF0) * 0x4_0000 + (e[1] as int - 0x80) * 0x1000
                               + (e[2] as int - 0x80) * 0x40 + (e[3] as int - 0x80))
  {
    var a, b := c / 0x40, c / 0x40 / 0x40;
    assert c == a * 0x40 + c % 0x40 && a == b * 0x40 + a % 0x40 && b == b / 0x40 * 0x40 + b % 0x40;
  }

  /** A string is encoded character by character. */
  lemma EncodeOne(c: codepoint)
    ensures Encode([c]) == if IsSurrogate(c) then None else Some(EncodeChar(c))
  {
    hide EncodeChar;
    assert [c][1..] == [];
    assert EncodeChar(c) + [] == EncodeChar(c);
  }

  // ---- what becomes of ill-formed bytes ----

  /** Bytes at the front of a character's encoding. */
  ghost predicate Begins(b: bytes, c: codepoint) {
    !IsSurrogate(c) && b <= EncodeChar(c)
  }

  ghost predicate BeginsSome(b: bytes) {
    exists c :: Begins(b, c)
  }

  lemma StepOfPrefix(b: bytes, c: codepoint)
    requires b != [] && Begins(b, c)
    ensures TailCount(b[0]) == Some(|EncodeChar(c)| - 1) && TailPresent(b, |EncodeChar(c)| - 1) == |b| - 1
  {
    var e := EncodeChar(c);
    StepOfEncoded(c, []);
    assert e + [] == e;
    assert forall i :: 0 <= i < |b| ==> b[i] == e[i];
  }

  lemma Completed(b: bytes, n: nat) returns (c: codepoint)
    requires |b| >= 2 && n <= 3 && TailCount(b[0]) == Some(n) && TailPresent(b, n) == |b| - 1
    ensures Begins(b, c) && |EncodeChar(c)| == n + 1
  {
    var x := b + seq(n + 1 - |b|, _ => 0x80);
    assert forall i :: 0 <= i < |b| ==> x[i] == b[i];
    assert TailPresent(x, n) == n;
    EncodedScalar(x, n);
    c := Scalar(x, n);
    hide Scalar, EncodeChar;
    assert x[..n + 1] == x && b <= x;
  }

  /** Each U+FFFD stands for a maximal part: bytes that begin some character, but do not with the byte that
      follows them; or a single byte that begins none with its follower. */
  lemma ReplacesMaximalParts(b: bytes)
    requires b != [] && DecodeStep(b).scalar == None
    ensures var n := DecodeStep(b).length;
      && DecodeReplace(b) == [REPLACEMENT] + DecodeReplace(b[n..])
      && (n > 1 ==> BeginsSome(b[..n]))
      && (n < |b| ==> !BeginsSome(b[..n + 1]))
      && (forall c :: Begins(b[..n], c) ==> n < |EncodeChar(c)|)
  {
    var n := DecodeStep(b).length;
    hide EncodeChar, Scalar;
    if n > 1 {
      SamePresence(b, n);
      var c := Completed(b[..n], TailCount(b[0]).value);
    }
    forall c | Begins(b[..n], c)
      ensures n < |EncodeChar(c)|
    {
      StepOfPrefix(b[..n], c);
      SamePresence(b, n);
    }
    if n < |b| {
      var longer := b[..n + 1];
      if BeginsSome(longer) {
        var c :| Begins(longer, c);
        StepOfPrefix(longer, c);
        SamePresence(b, n + 1);
        assert false;
      }
    }
  }

  /** How many continuation bytes are there depends on the bytes in question only. */
  lemma SamePresence(b: bytes, m: nat)
    requires 1 <= m <= |b|
    ensures b[..m][0] == b[0]
    ensures forall n | 0 <= n <= 3 :: TailPresent(b[..m], n) == if TailPresent(b, n) < m then TailPresent(b, n) else m - 1
  {
  }
}
