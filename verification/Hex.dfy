/** `bytes.hex()` and `bytes.fromhex()`. */
module Hex {
  import opened Basics

  type nibble = n: int | 0 <= n < 16

  function HexDigit(n: nibble): (c: ascii) {
    if n < 10 then '0' as int + n else 'a' as int + (n - 10)
  }

  function HexValue(c: codepoint): Option<nibble> {
    if '0' as int <= c <= '9' as int then Some(c - '0' as int)
    else if 'a' as int <= c <= 'f' as int then Some(c - 'a' as int + 10)
    else if 'A' as int <= c <= 'F' as int then Some(c - 'A' as int + 10)
    else None
  }

  lemma HexDigitValue(n: nibble)
    ensures HexValue(HexDigit(n)) == Some(n)
  {
  }

  /** Four lower-case hex digits, as in Python's `{0:04x}`. */
  function Hex4(u: nat): (r: seq<ascii>)
    requires u < 0x1_0000
    ensures |r| == 4
  {
    [HexDigit(u / 0x1000), HexDigit(u / 0x100 % 16), HexDigit(u / 16 % 16), HexDigit(u % 16)]
  }

  function ToHex(b: bytes): (r: seq<ascii>) {
    if b == [] then [] else [HexDigit(b[0] / 16), HexDigit(b[0] % 16)] + ToHex(b[1..])
  }

  predicate IsSpace(c: codepoint) {
    c == 0x20 || 0x09 <= c <= 0x0D
  }

  /** `bytes.fromhex`: ASCII white space is skipped before each pair of digits, and nothing else. */
  function FromHex(t: text): Option<bytes> {
    if t == [] then Some([])
    else if IsSpace(t[0]) then FromHex(t[1..])
    else if |t| < 2 then None
    else match (HexValue(t[0]), HexValue(t[1]), FromHex(t[2..]))
      case (Some(h), Some(l), Some(rest)) => Some([h as int * 16 + l as int] + rest)
      case _ => None
  }

  lemma DigitValues(b: byte)
    ensures HexValue(HexDigit(b / 16)) == Some(b / 16) && HexValue(HexDigit(b % 16)) == Some(b % 16)
    ensures !IsSpace(HexDigit(b / 16)) && b as int == b / 16 * 16 + b % 16
  {
  }

  /** Reading the two digits of a byte. */
  lemma FromHexByte(b: byte, t: text)
    ensures FromHex([HexDigit(b / 16), HexDigit(b % 16)] + t)
         == match FromHex(t)
            case None => None
            case Some(rest) => Some([b] + rest)
  {
    DigitValues(b);
    hide HexValue, HexDigit, IsSpace;
    var u := [HexDigit(b / 16), HexDigit(b % 16)] + t;
    assert u[2..] == t;
  }

  lemma {:induction false} HexRoundTrip(b: bytes)
    ensures FromHex(ToHex(b)) == Some(b)
  {
    if b != [] {
      HexRoundTrip(b[1..]);
      FromHexByte(b[0], ToHex(b[1..]));
      hide FromHex, HexDigit;
      assert b == [b[0]] + b[1..];
    }
  }

  // ---- what is written and what is read ----

  /** Digits are written in lower case. */
  lemma DigitsAreLowerCase(n: nibble)
    ensures HexDigit(n) == Ascii("0123456789abcdef")[n]
  {
    assert n < 10 ==> "0123456789abcdef"[n] as int == '0' as int + n;
    assert n >= 10 ==> "0123456789abcdef"[n] as int == 'a' as int + (n - 10);
  }

  /** Two digits for each byte, the high one first. */
  lemma {:induction false} ToHexAt(b: bytes, i: nat)
    requires i < |b|
    ensures |ToHex(b)| == 2 * |b|
    ensures ToHex(b)[2 * i] == HexDigit(b[i] / 16) && ToHex(b)[2 * i + 1] == HexDigit(b[i] % 16)
  {
    hide HexDigit;
    var h, rest := ToHex(b), ToHex(b[1..]);
    assert h[2..] == rest;
    if |b| == 1 {
      assert b[1..] == [] && rest == [];
    } else {
      ToHexAt(b[1..], if i > 0 then i - 1 else 0);
      if i > 0 {
        assert h[2 * i] == rest[2 * (i - 1)] && h[2 * i + 1] == rest[2 * (i - 1) + 1];
      }
    }
  }

  function LowerChar(c: codepoint): codepoint {
    if 'A' as int <= c <= 'Z' as int then c + 32 else c
  }

  function Lower(t: text): (r: text)
    ensures |r| == |t|
    ensures forall i :: 0 <= i < |t| ==> r[i] == LowerChar(t[i])
  {
    seq(|t|, i requires 0 <= i < |t| => LowerChar(t[i]))
  }

  lemma HexValueExact(c: codepoint, n: nibble)
    ensures HexValue(c) == Some(n) <==> Lower([c]) == [HexDigit(n)]
  {
    HexValueLower(c, n);
    hide HexValue, HexDigit, LowerChar;
    assert Lower([c]) == [LowerChar(c)];
    assert [LowerChar(c)][0] == LowerChar(c);
  }

  lemma HexValueLower(c: codepoint, n: nibble)
    ensures HexValue(c) == Some(n) <==> LowerChar(c) == HexDigit(n)
  {
  }

  lemma LowerCut(t: text)
    requires |t| >= 2
    ensures Lower(t) == Lower(t[..1]) + Lower(t[1..2]) + Lower(t[2..])
    ensures t[..1] == [t[0]] && t[1..2] == [t[1]]
  {
    var l, r := Lower(t), Lower(t[..1]) + Lower(t[1..2]) + Lower(t[2..]);
    assert |l| == |r|;
    forall i | 0 <= i < |l|
      ensures l[i] == r[i]
    {
      assert i >= 2 ==> t[2..][i - 2] == t[i];
    }
  }

  /** Text without white space reads as b exactly when it is the hex form of b in either case. */
  lemma {:induction false} FromHexExact(t: text, b: bytes)
    requires forall c :: c in t ==> !IsSpace(c)
    ensures FromHex(t) == Some(b) <==> Lower(t) == ToHex(b)
  {
    if |t| >= 2 {
      hide HexValue, HexDigit, Lower, IsSpace;
      LowerCut(t);
      assert t[0] in t && t[1] in t;
      if b != [] {
        FromHexExact(t[2..], b[1..]);
        HexValueExact(t[0], b[0] / 16);
        HexValueExact(t[1], b[0] % 16);
        FromHexStep(t, b);
        var l, h := Lower(t), ToHex(b);
        assert h == [HexDigit(b[0] / 16)] + [HexDigit(b[0] % 16)] + ToHex(b[1..]);
        assert |Lower([t[0]])| == 1 && |Lower([t[1]])| == 1;
        assert l[..1] == Lower([t[0]]) && l[1..2] == Lower([t[1]]) && l[2..] == Lower(t[2..]);
        assert h[..1] == [HexDigit(b[0] / 16)] && h[1..2] == [HexDigit(b[0] % 16)] && h[2..] == ToHex(b[1..]);
      }
    } else if |t| == 1 {
      assert t[0] in t;
      if b != [] {
        ToHexAt(b, 0);
      }
    }
  }

  lemma FromHexStep(t: text, b: bytes)
    requires |t| >= 2 && !IsSpace(t[0]) && b != []
    ensures FromHex(t) == Some(b)
       <==> HexValue(t[0]) == Some(b[0] / 16) && HexValue(t[1]) == Some(b[0] % 16) && FromHex(t[2..]) == Some(b[1..])
  {
    hide HexValue;
    if FromHex(t[2..]).Some? && HexValue(t[0]).Some? && HexValue(t[1]).Some? {
      var h, l: int := HexValue(t[0]).value, HexValue(t[1]).value;
      assert FromHex(t) == Some([h * 16 + l] + FromHex(t[2..]).value);
      assert b == [b[0]] + b[1..];
      assert (h * 16 + l) / 16 == h && (h * 16 + l) % 16 == l;
    }
  }

  /** White space counts for nothing in front of the text and between two bytes. */
  lemma {:induction false} SpaceBetweenBytes(b: bytes, white: text, t: text)
    requires forall c :: c in white ==> IsSpace(c)
    ensures FromHex(ToHex(b) + white + t)
         == match FromHex(t)
            case None => None
            case Some(rest) => Some(b + rest)
  {
    hide FromHex, HexDigit;
    if b != [] {
      SpaceBetweenBytes(b[1..], white, t);
      FromHexByte(b[0], ToHex(b[1..]) + white + t);
      assert ToHex(b) + white + t == [HexDigit(b[0] / 16), HexDigit(b[0] % 16)] + (ToHex(b[1..]) + white + t);
      hide ToHex;
      if FromHex(t).Some? {
        assert b + FromHex(t).value == [b[0]] + (b[1..] + FromHex(t).value);
      }
    } else {
      assert ToHex(b) + white + t == white + t;
      SpaceInFront(white, t);
      if FromHex(t).Some? {
        assert b + FromHex(t).value == FromHex(t).value;
      }
    }
  }

  lemma SpaceFirst(c: codepoint, t: text)
    requires IsSpace(c)
    ensures FromHex([c] + t) == FromHex(t)
  {
    hide HexValue;
    assert ([c] + t)[1..] == t;
  }

  lemma {:induction false} SpaceInFront(white: text, t: text)
    requires forall c :: c in white ==> IsSpace(c)
    ensures FromHex(white + t) == FromHex(t)
  {
    hide IsSpace, FromHex;
    if white == [] {
      assert white + t == t;
    } else {
      assert white[0] in white && forall c :: c in white[1..] ==> c in white;
      SpaceInFront(white[1..], t);
      SpaceFirst(white[0], white[1..] + t);
      assert white + t == [white[0]] + (white[1..] + t);
    }
  }
}
