/** How `json.loads` reads a bytes object: the encoding is guessed from byte-order marks and zero bytes,
    and lone surrogates are let through (errors="surrogatepass"). */
module Encodings {
  import opened Basics
  import opened Json
  import opened JsonRoundTrip
  import Utf8

  datatype Encoding = Utf8Plain | Utf8Marked | Utf16(bigEndian: bool, marked: bool) | Utf32(bigEndian: bool, marked: bool)

  /** `json.detect_encoding` */
  function Detect(b: bytes): Encoding {
    if StartsWith(b, [0, 0, 0xFE, 0xFF]) then Utf32(true, true)
    else if StartsWith(b, [0xFF, 0xFE, 0, 0]) then Utf32(false, true)
    else if StartsWith(b, [0xFE, 0xFF]) then Utf16(true, true)
    else if StartsWith(b, [0xFF, 0xFE]) then Utf16(false, true)
    else if StartsWith(b, [0xEF, 0xBB, 0xBF]) then Utf8Marked
    else if |b| >= 4 then
      if b[0] == 0 then (if b[1] != 0 then Utf16(true, false) else Utf32(true, false))
      else if b[1] == 0 then (if b[2] != 0 || b[3] != 0 then Utf16(false, false) else Utf32(false, false))
      else Utf8Plain
    else if |b| == 2 && b[0] == 0 then Utf16(true, false)
    else if |b| == 2 && b[1] == 0 then Utf16(false, false)
    else Utf8Plain
  }

  /** UTF-8 in which a surrogate written as three bytes is read as well. */
  function DecodeUtf8(b: bytes): Option<text>
    decreases |b|
  {
    if b == [] then Some([])
    else
      var s := Utf8.DecodeStep(b);
      if s.scalar.Some? then Follow(s.scalar.value, DecodeUtf8(b[s.length..]))
      else if |b| >= 3 && b[0] == 0xED && 0xA0 <= b[1] < 0xC0 && Utf8.IsTail(b[2]) then
        Follow(0xD000 + (b[1] as int - 0x80) * 0x40 + (b[2] as int - 0x80), DecodeUtf8(b[3..]))
      else None
  }

  function Follow(c: codepoint, rest: Option<text>): Option<text> {
    match rest
    case None => None
    case Some(t) => Some([c] + t)
  }

  /** UTF-16: a pair of surrogates is one character, any other surrogate stands for itself. */
  function DecodeUtf16(b: bytes, bigEndian: bool): Option<text> {
    match Units(b, bigEndian)
    case None => None
    case Some(units) => Some(Pair(units))
  }

  function Units(b: bytes, bigEndian: bool): (r: Option<text>)
    decreases |b|
  {
    if b == [] then Some([])
    else if |b| < 2 then None
    else Follow(if bigEndian then b[0] as int * 0x100 + b[1] as int else b[1] as int * 0x100 + b[0] as int, Units(b[2..], bigEndian))
  }

  function DecodeUtf32(b: bytes, bigEndian: bool): Option<text>
    decreases |b|
  {
    if b == [] then Some([])
    else if |b| < 4 then None
    else
      var c := FromBigEndian(if bigEndian then b[..4] else [b[3], b[2], b[1], b[0]]);
      if c > 0x10_FFFF then None else Follow(c, DecodeUtf32(b[4..], bigEndian))
  }

  function Decode(b: bytes): Option<text> {
    match Detect(b)
    case Utf8Plain => DecodeUtf8(b)
    case Utf8Marked => DecodeUtf8(if |b| >= 3 then b[3..] else [])
    case Utf16(big, marked) => DecodeUtf16(if marked && |b| >= 2 then b[2..] else b, big)
    case Utf32(big, marked) => DecodeUtf32(if marked && |b| >= 4 then b[4..] else b, big)
  }

  /** `json.loads(b)` for a bytes object; None for every exception. */
  function LoadsBytes(b: bytes): Option<Json> {
    match Decode(b)
    case None => None
    case Some(t) => ParseDocument(t)
  }

  lemma {:induction false} DecodeAscii(t: seq<ascii>)
    ensures DecodeUtf8(t) == Some(t)
  {
    if t != [] {
      DecodeAscii(t[1..]);
      assert t == [t[0]] + t[1..];
    }
  }

  /** Dumped objects are read as what they are. */
  lemma LoadsBytesDumps(v: Json)
    requires v.Obj? && WellFormed(v)
    ensures LoadsBytes(Dumps(v)) == Some(PairJson(v))
  {
    hide Dumps, PairJson, WellFormed, Detect, DecodeUtf8, ParseDocument;
    DocumentOfDumps(v);
    DecodeAscii(Dumps(v));
    ObjectStart(v);
    DetectPlain(Dumps(v));
  }

  lemma DocumentOfDumps(v: Json)
    requires WellFormed(v)
    ensures ParseDocument(Dumps(v)) == Some(PairJson(v))
  {
    hide Dumps, PairJson, WellFormed, ParseDocument, Utf8.Decode;
    LoadsDumps(v);
    Utf8.EncodeAscii(Dumps(v));
    Utf8.DecodeEncode(Dumps(v));
  }

  lemma DetectPlain(b: bytes)
    requires |b| >= 2 && 0 < b[0] < 0x80 && b[1] != 0
    ensures Detect(b) == Utf8Plain
  {
  }

  lemma ObjectStart(v: Json)
    requires v.Obj?
    ensures |Dumps(v)| >= 2 && Dumps(v)[0] == OPEN_OBJECT && Dumps(v)[1] != 0
  {
    MembersStart(v, Ordering.SortedKeys(v.fields.Keys));
    var body := DumpsMembers(v, Ordering.SortedKeys(v.fields.Keys));
    assert body != [] ==> Dumps(v)[1] == body[0];
  }

  /** Where strict UTF-8 succeeds on bytes that are taken for UTF-8, the lenient reader agrees. */
  lemma {:induction false} StrictIsLenient(b: bytes)
    requires Utf8.Decode(b).Some?
    ensures DecodeUtf8(b) == Utf8.Decode(b)
    decreases |b|
  {
    hide Utf8.DecodeStep;
    if b != [] {
      StrictIsLenient(b[Utf8.DecodeStep(b).length..]);
    }
  }

  /** Surrogates pass: the lenient reader takes any code point from its three-byte form. */
  lemma SurrogatesPass(c: codepoint, rest: bytes)
    ensures DecodeUtf8(Utf8.EncodeChar(c) + rest) == Follow(c, DecodeUtf8(rest))
  {
    var b := Utf8.EncodeChar(c) + rest;
    if Utf8.IsSurrogate(c) {
      assert b[0] == 0xED && b[3..] == rest;
    } else {
      Utf8.StepOfEncoded(c, rest);
      assert b[|Utf8.EncodeChar(c)|..] == rest;
    }
  }

  // ---- all byte forms of one document ----

  function UnitBytes(c: ascii, width: nat, bigEndian: bool): (b: bytes)
    requires width > 0
    ensures |b| == width
  {
    if bigEndian then seq(width - 1, _ => 0) + [c] else [c] + seq(width - 1, _ => 0)
  }

  /** ASCII text in units of one, two or four bytes. */
  function Wide(t: seq<ascii>, width: nat, bigEndian: bool): bytes
    requires width > 0
  {
    if t == [] then [] else UnitBytes(t[0], width, bigEndian) + Wide(t[1..], width, bigEndian)
  }

  const UTF8_MARK: bytes := [0xEF, 0xBB, 0xBF]

  /** ASCII text in an encoding, with its byte-order mark where it has one. */
  function Written(t: seq<ascii>, e: Encoding): bytes {
    match e
    case Utf8Plain => t
    case Utf8Marked => UTF8_MARK + t
    case Utf16(big, marked) =>
      (if !marked then [] else if big then [0xFE, 0xFF] else [0xFF, 0xFE]) + Wide(t, 2, big)
    case Utf32(big, marked) =>
      (if !marked then [] else if big then [0, 0, 0xFE, 0xFF] else [0xFF, 0xFE, 0, 0]) + Wide(t, 4, big)
  }

  lemma {:induction false} UnitsOf(t: seq<ascii>, bigEndian: bool)
    ensures Units(Wide(t, 2, bigEndian), bigEndian) == Some(t)
  {
    if t != [] {
      UnitsOf(t[1..], bigEndian);
      UnitsCons(t[0], Wide(t[1..], 2, bigEndian), bigEndian);
      hide Units;
      assert t == [t[0]] + t[1..];
    }
  }

  lemma UnitsCons(c: ascii, rest: bytes, bigEndian: bool)
    ensures Units(UnitBytes(c, 2, bigEndian) + rest, bigEndian) == Follow(c, Units(rest, bigEndian))
  {
    var b := UnitBytes(c, 2, bigEndian) + rest;
    assert b[2..] == rest;
  }

  lemma {:induction false} Units32Of(t: seq<ascii>, bigEndian: bool)
    ensures DecodeUtf32(Wide(t, 4, bigEndian), bigEndian) == Some(t)
  {
    if t != [] {
      Units32Of(t[1..], bigEndian);
      Units32Cons(t[0], Wide(t[1..], 4, bigEndian), bigEndian);
      hide DecodeUtf32;
      assert t == [t[0]] + t[1..];
    }
  }

  lemma SmallNumber(b: bytes, c: ascii)
    requires b == [0, 0, 0, c]
    ensures FromBigEndian(b) == c
  {
    assert b[..3] == [0, 0, 0] && b[..3][..2] == [0, 0] && b[..3][..2][..1] == [0];
    assert FromBigEndian([]) == 0 && FromBigEndian([0]) == 0;
    assert FromBigEndian([0, 0]) == 0;
    assert FromBigEndian([0, 0, 0]) == 0;
  }

  lemma Units32Cons(c: ascii, rest: bytes, bigEndian: bool)
    ensures DecodeUtf32(UnitBytes(c, 4, bigEndian) + rest, bigEndian) == Follow(c, DecodeUtf32(rest, bigEndian))
  {
    var b := UnitBytes(c, 4, bigEndian) + rest;
    assert b[4..] == rest;
    assert b[..4] == UnitBytes(c, 4, bigEndian);
    SmallNumber([0, 0, 0, c], c);
    hide FromBigEndian;
    assert (if bigEndian then b[..4] else [b[3], b[2], b[1], b[0]]) == [0, 0, 0, c];
  }

  lemma WideStart(t: seq<ascii>, width: nat, bigEndian: bool)
    requires |t| >= 2 && width > 0
    ensures |Wide(t, width, bigEndian)| >= 2 * width
    ensures Wide(t, width, bigEndian)[..width] == UnitBytes(t[0], width, bigEndian)
    ensures Wide(t, width, bigEndian)[width..2 * width] == UnitBytes(t[1], width, bigEndian)
  {
    hide UnitBytes;
    var rest := Wide(t[1..], width, bigEndian);
    assert rest == UnitBytes(t[1], width, bigEndian) + Wide(t[1..][1..], width, bigEndian);
  }

  lemma DetectWritten(t: seq<ascii>, e: Encoding)
    requires |t| >= 2 && t[0] != 0 && t[1] != 0
    ensures Detect(Written(t, e)) == e
  {
    match e
    case Utf8Plain => DetectPlain(t);
    case Utf8Marked => DetectMark(t);
    case Utf16(big, marked) =>
      WideStart(t, 2, big);
      hide Detect, Wide, UnitBytes;
      Detect16(t, Wide(t, 2, big), big, marked);
    case Utf32(big, marked) =>
      WideStart(t, 4, big);
      hide Detect, Wide, UnitBytes;
      Detect32(t[0], Wide(t, 4, big), big, marked);
  }

  lemma DetectMark(t: bytes)
    ensures Detect(UTF8_MARK + t) == Utf8Marked
  {
    var b := UTF8_MARK + t;
    assert b[0] == 0xEF && b[..3] == UTF8_MARK;
  }

  lemma FirstBytes(mark: bytes, w: bytes)
    requires |w| >= 4
    ensures var b := mark + w;
      && (|mark| == 0 ==> b[0] == w[0] && b[1] == w[1] && b[2] == w[2] && b[3] == w[3])
      && (|mark| == 2 ==> b[0] == mark[0] && b[1] == mark[1] && b[2] == w[0] && b[3] == w[1])
      && (|mark| == 4 ==> b[0] == mark[0] && b[1] == mark[1] && b[2] == mark[2] && b[3] == mark[3])
  {
  }

  /** The guess, by the first four bytes. */
  lemma DetectBytes(b: bytes)
    requires |b| >= 4
    ensures Detect(b)
         == if b[0] == 0 && b[1] == 0 && b[2] == 0xFE && b[3] == 0xFF then Utf32(true, true)
            else if b[0] == 0xFF && b[1] == 0xFE && b[2] == 0 && b[3] == 0 then Utf32(false, true)
            else if b[0] == 0xFE && b[1] == 0xFF then Utf16(true, true)
            else if b[0] == 0xFF && b[1] == 0xFE then Utf16(false, true)
            else if b[0] == 0xEF && b[1] == 0xBB && b[2] == 0xBF then Utf8Marked
            else if b[0] == 0 then (if b[1] != 0 then Utf16(true, false) else Utf32(true, false))
            else if b[1] == 0 then (if b[2] != 0 || b[3] != 0 then Utf16(false, false) else Utf32(false, false))
            else Utf8Plain
  {
    assert b[..4] == [b[0], b[1], b[2], b[3]] && b[..3] == [b[0], b[1], b[2]] && b[..2] == [b[0], b[1]];
  }

  lemma Detect32(c: ascii, w: bytes, big: bool, marked: bool)
    requires c != 0 && |w| >= 4 && w[..4] == UnitBytes(c, 4, big)
    ensures Detect((if !marked then [] else if big then [0, 0, 0xFE, 0xFF] else [0xFF, 0xFE, 0, 0]) + w) == Utf32(big, marked)
  {
    assert w[0] == w[..4][0] && w[1] == w[..4][1] && w[2] == w[..4][2] && w[3] == w[..4][3];
    hide UnitBytes, Detect;
    var mark: bytes := if !marked then [] else if big then [0, 0, 0xFE, 0xFF] else [0xFF, 0xFE, 0, 0];
    FirstBytes(mark, w);
    DetectBytes(mark + w);
  }

  lemma Detect16(t: seq<ascii>, w: bytes, big: bool, marked: bool)
    requires |t| >= 2 && t[0] != 0 && t[1] != 0 && |w| >= 4
    requires w[..2] == UnitBytes(t[0], 2, big) && w[2..4] == UnitBytes(t[1], 2, big)
    ensures Detect((if !marked then [] else if big then [0xFE, 0xFF] else [0xFF, 0xFE]) + w) == Utf16(big, marked)
  {
    assert w[0] == w[..2][0] && w[1] == w[..2][1] && w[2] == w[2..4][0] && w[3] == w[2..4][1];
    hide UnitBytes, Detect;
    var mark: bytes := if !marked then [] else if big then [0xFE, 0xFF] else [0xFF, 0xFE];
    FirstBytes(mark, w);
    DetectBytes(mark + w);
  }

  lemma DecodeWritten(t: seq<ascii>, e: Encoding)
    requires Detect(Written(t, e)) == e
    ensures Decode(Written(t, e)) == Some(t)
  {
    hide Detect, DecodeUtf8, Units, DecodeUtf32, Wide, Pair, WellPaired;
    DecodeAscii(t);
    AsciiWellPaired(t);
    PairIdentity(t);
    match e
    case Utf8Plain =>
    case Utf8Marked => assert Written(t, e)[3..] == t;
    case Utf16(big, marked) =>
      UnitsOf(t, big);
      assert marked ==> Written(t, e)[2..] == Wide(t, 2, big);
      assert !marked ==> Written(t, e) == Wide(t, 2, big);
    case Utf32(big, marked) =>
      Units32Of(t, big);
      assert marked ==> Written(t, e)[4..] == Wide(t, 4, big);
      assert !marked ==> Written(t, e) == Wide(t, 4, big);
  }

  /** One document has ten byte forms: a dumped object is read as the same object in UTF-8, in UTF-16 and in
      UTF-32 of either byte order, each with a byte-order mark or without. */
  lemma RecodedDumps(v: Json, e: Encoding)
    requires v.Obj? && WellFormed(v)
    ensures LoadsBytes(Written(Dumps(v), e)) == Some(PairJson(v))
  {
    hide Dumps, PairJson, WellFormed, Detect, Decode, Written, ParseDocument;
    DocumentOfDumps(v);
    ObjectStart(v);
    DetectWritten(Dumps(v), e);
    DecodeWritten(Dumps(v), e);
  }
}
