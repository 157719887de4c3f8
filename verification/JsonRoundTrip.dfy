/** What `json.loads` makes of the output of `json.dumps`, with anything at all behind it. */
module JsonRoundTrip {
  import opened Basics
  import opened Ordering
  import opened Hex
  import opened Json
  import Utf8

  // ---- strings ----

  /** A string survives JSON unless a high surrogate stands directly before a low one. */
  ghost predicate WellPaired(s: text) {
    forall i :: 0 <= i < |s| - 1 ==> !(IsHigh(s[i]) && IsLow(s[i + 1]))
  }

  /** The string with every such pair joined into the character it encodes in UTF-16. */
  function Pair(s: text): text {
    if s == [] then []
    else if |s| >= 2 && IsHigh(s[0]) && IsLow(s[1]) then [Paired(s[0], s[1])] + Pair(s[2..])
    else [s[0]] + Pair(s[1..])
  }

  lemma {:induction false} PairIsWellPaired(s: text)
    ensures WellPaired(Pair(s))
    ensures s != [] ==> Pair(s) != []
    ensures s != [] && IsLow(Pair(s)[0]) ==> IsLow(s[0])
  {
    if s != [] {
      var rest := if |s| >= 2 && IsHigh(s[0]) && IsLow(s[1]) then s[2..] else s[1..];
      PairIsWellPaired(rest);
      assert Pair(s)[1..] == Pair(rest);
    }
  }

  lemma {:induction false} PairIdentity(s: text)
    ensures Pair(s) == s <==> WellPaired(s)
  {
    if WellPaired(s) && s != [] {
      PairIdentity(s[1..]);
      assert s == [s[0]] + s[1..];
    } else {
      PairIsWellPaired(s);
    }
  }

  lemma ScalarTextIsWellPaired(s: text)
    requires Utf8.Encode(s).Some?
    ensures WellPaired(s)
  {
    Utf8.EncodeSucceeds(s);
  }

  lemma EscapeOfPair(high: codepoint, low: codepoint)
    requires IsHigh(high) && IsLow(low)
    ensures EscapeChar(high) + EscapeChar(low) == EscapeChar(Paired(high, low))
  {
  }

  lemma EscapePrepend(c: codepoint, e: seq<ascii>, s: text)
    requires e == EscapeChar(c)
    ensures Escape([c] + s) == e + Escape(s)
  {
    assert ([c] + s)[1..] == s;
  }

  /** Escaping does not see whether a surrogate pair is joined. */
  lemma {:induction false} EscapeForgetsPairing(s: text)
    ensures Escape(s) == Escape(Pair(s))
  {
    if s != [] {
      if |s| >= 2 && IsHigh(s[0]) && IsLow(s[1]) {
        EscapeForgetsPairing(s[2..]);
        EscapeHeadPair(s[0], s[1], s[2..]);
        assert s == [s[0], s[1]] + s[2..];
        EscapePrepend(Paired(s[0], s[1]), EscapeChar(Paired(s[0], s[1])), Pair(s[2..]));
      } else {
        EscapeForgetsPairing(s[1..]);
        EscapePrepend(s[0], EscapeChar(s[0]), Pair(s[1..]));
      }
    }
  }

  lemma EscapeHeadPair(high: codepoint, low: codepoint, s: text)
    requires IsHigh(high) && IsLow(low)
    ensures Escape([high, low] + s) == EscapeChar(Paired(high, low)) + Escape(s)
  {
    hide EscapeChar;
    var h, l := EscapeChar(high), EscapeChar(low);
    EscapePrepend(high, h, [low] + s);
    EscapePrepend(low, l, s);
    EscapeOfPair(high, low);
    assert [high, low] + s == [high] + ([low] + s);
    assert h + (l + Escape(s)) == (h + l) + Escape(s);
  }

  lemma ScanUnitOf(u: codepoint, rest: text)
    requires u < 0x1_0000
    ensures ScanUnit(Hex4(u) + rest) == Some((u, rest))
  {
    var t := Hex4(u) + rest;
    HexDigitValue(u / 0x1000);
    HexDigitValue(u / 0x100 % 16);
    HexDigitValue(u / 16 % 16);
    HexDigitValue(u % 16);
    assert t[0] == HexDigit(u / 0x1000) && t[1] == HexDigit(u / 0x100 % 16);
    assert t[2] == HexDigit(u / 16 % 16) && t[3] == HexDigit(u % 16) && t[4..] == rest;
    assert u / 0x100 == u / 16 / 16 && u / 0x1000 == u / 16 / 16 / 16;
  }

  lemma ScanEscapedUnit(u: codepoint, rest: text)
    requires u < 0x1_0000
    ensures ScanEscape((EscapeUnit(u) + rest)[1..])
         == if !IsHigh(u) then Some((u, rest))
            else match ScanLowEscape(rest)
              case Some((low, after)) => Some((Paired(u, low), after))
              case None => Some((u, rest))
    ensures ScanLowEscape(EscapeUnit(u) + rest) == if IsLow(u) then Some((u, rest)) else None
  {
    var t := EscapeUnit(u) + rest;
    ScanUnitOf(u, rest);
    assert t[1..][1..] == Hex4(u) + rest && t[2..] == Hex4(u) + rest;
  }

  lemma ScanCharacter(c: codepoint, rest: text)
    requires IsHigh(c) ==> ScanLowEscape(rest).None?
    ensures ScanString(EscapeChar(c) + rest) == Prepend(c, ScanString(rest))
  {
    hide ScanUnit, Hex4;
    if c >= 0x1_0000 {
      ScanLarge(c, rest);
    } else if EscapeChar(c) == EscapeUnit(c) {
      ScanEscapedUnit(c, rest);
    } else {
      ScanShort(c, rest);
    }
  }

  lemma ScanLarge(c: codepoint, rest: text)
    requires c >= 0x1_0000
    ensures ScanString(EscapeChar(c) + rest) == Prepend(c, ScanString(rest))
  {
    hide ScanUnit, Hex4, ScanEscape, ScanLowEscape;
    var tail := EscapeUnit(LowOf(c)) + rest;
    assert EscapeChar(c) + rest == EscapeUnit(HighOf(c)) + tail;
    ScanEscapedUnit(HighOf(c), tail);
    ScanEscapedUnit(LowOf(c), rest);
    assert Paired(HighOf(c), LowOf(c)) == c;
  }

  lemma ScanShort(c: codepoint, rest: text)
    requires c < 0x1_0000 && EscapeChar(c) != EscapeUnit(c)
    ensures ScanString(EscapeChar(c) + rest) == Prepend(c, ScanString(rest))
  {
    hide ScanUnit, EscapeUnit;
    var e := EscapeChar(c);
    var t := e + rest;
    if |e| == 2 {
      assert t[1..] == [e[1]] + rest && t[1..][1..] == rest;
    } else {
      assert t[1..] == rest;
    }
  }

  lemma NoLowEscape(c: codepoint, rest: text)
    requires !IsLow(c)
    ensures ScanLowEscape(EscapeChar(c) + rest).None?
  {
    var t := EscapeChar(c) + rest;
    if c >= 0x1_0000 {
      assert t == EscapeUnit(HighOf(c)) + (EscapeUnit(LowOf(c)) + rest);
      ScanEscapedUnit(HighOf(c), EscapeUnit(LowOf(c)) + rest);
    } else if EscapeChar(c) == EscapeUnit(c) {
      ScanEscapedUnit(c, rest);
    } else {
      assert t[0] == EscapeChar(c)[0];
      assert |EscapeChar(c)| == 2 ==> t[1] == EscapeChar(c)[1];
    }
  }

  lemma NoLowEscapeInside(s: text, close: text)
    requires s == [] || !IsLow(s[0])
    requires close != [] && close[0] == QUOTE
    ensures ScanLowEscape(Escape(s) + close).None?
  {
    if s == [] {
      assert Escape(s) + close == close;
    } else {
      assert Escape(s) + close == EscapeChar(s[0]) + (Escape(s[1..]) + close);
      NoLowEscape(s[0], Escape(s[1..]) + close);
    }
  }

  lemma {:induction false} ScanWellPaired(s: text, close: text)
    requires WellPaired(s)
    requires close != [] && close[0] == QUOTE
    ensures ScanString(Escape(s) + close) == Some((s, close[1..]))
  {
    hide EscapeChar, ScanEscape, ScanLowEscape;
    if s == [] {
      assert Escape(s) + close == close;
    } else {
      ScanWellPaired(s[1..], close);
      if IsHigh(s[0]) {
        NoLowEscapeInside(s[1..], close);
      }
      ScanCharacter(s[0], Escape(s[1..]) + close);
      assert Escape(s) + close == EscapeChar(s[0]) + (Escape(s[1..]) + close);
      assert s == [s[0]] + s[1..];
    }
  }

  lemma ScanDumped(s: text, rest: text)
    ensures ScanString(Escape(s) + [QUOTE] + rest) == Some((Pair(s), rest))
  {
    var close: text := [QUOTE] + rest;
    EscapeForgetsPairing(s);
    PairIsWellPaired(s);
    ScanWellPaired(Pair(s), close);
    assert Escape(s) + [QUOTE] + rest == Escape(s) + close && close[1..] == rest;
  }

  // ---- integers ----

  /** What may follow a value in a document. */
  predicate Stops(rest: text) {
    rest == [] || rest[0] == COMMA || rest[0] == CLOSE_ARRAY || rest[0] == CLOSE_OBJECT || IsWhite(rest[0])
  }

  lemma {:induction false} ScanDigitsOf(ds: seq<ascii>, rest: text)
    requires forall i :: 0 <= i < |ds| ==> IsDigit(ds[i])
    requires rest == [] || !IsDigit(rest[0])
    ensures ScanDigits(ds + rest) == (ds, rest)
  {
    if ds == [] {
      assert ds + rest == rest;
    } else {
      assert (ds + rest)[1..] == ds[1..] + rest;
      ScanDigitsOf(ds[1..], rest);
      assert ds == [ds[0]] + ds[1..];
    }
  }

  lemma {:induction false} DigitsRoundTrip(n: nat)
    ensures DigitsValue(Digits(n)) == n
    ensures Digits(n)[0] == '0' as int <==> n == 0
  {
    var ds := Digits(n);
    if n < 10 {
      assert ds == ['0' as int + n];
      assert ds[..|ds| - 1] == [];
    } else {
      DigitsRoundTrip(n / 10);
      var front := Digits(n / 10);
      assert ds == front + ['0' as int + n % 10];
      assert ds[..|ds| - 1] == front && ds[|ds| - 1] == '0' as int + n % 10;
      assert ds[0] == front[0];
    }
  }

  lemma NothingAfterInt(rest: text)
    requires Stops(rest)
    ensures ScanFraction(rest) == ([], rest) && ScanExponent(rest) == ([], rest)
  {
  }

  lemma ScanIntDigits(n: nat, rest: text)
    requires Stops(rest)
    ensures var t := Digits(n) + rest;
      && t != [] && IsDigit(t[0])
      && (if t[0] == '0' as int then ([t[0]], t[1..]) else ScanDigits(t)) == (Digits(n), rest)
  {
    var ds := Digits(n);
    DigitsRoundTrip(n);
    ScanDigitsOf(ds, rest);
    hide Digits, ScanDigits, DigitsValue;
    assert (ds + rest)[0] == ds[0] && IsDigit(ds[0]);
    if n == 0 {
      ZeroDigit();
      assert (ds + rest)[1..] == rest;
    }
  }

  lemma ZeroDigit()
    ensures Digits(0) == ['0' as int]
  {
  }

  lemma ScanNumberOf(negative: bool, n: nat, rest: text)
    requires Stops(rest)
    ensures ScanNumber(negative, Digits(n) + rest) == Some((Int(if negative then -(n as int) else n), rest))
  {
    NothingAfterInt(rest);
    DigitsRoundTrip(n);
    ScanIntDigits(n, rest);
    hide ScanFraction, ScanExponent, ScanDigits, Digits, DigitsValue, IsDigit, Stops;
  }

  lemma ParseNumber(t: text)
    requires t != []
    ensures IsDigit(t[0]) ==> ParseValue(t) == ScanNumber(false, t)
    ensures |t| > 1 && t[0] == MINUS && IsDigit(t[1]) ==> ParseValue(t) == ScanNumber(true, t[1..])
  {
    hide ScanNumber, ScanKeyword;
  }

  lemma ParseInt(n: int, rest: text)
    requires Stops(rest)
    ensures ParseValue(DumpsInt(n) + rest) == Some((Int(n), rest))
  {
    hide ScanNumber, ScanKeyword, ParseValue;
    var t := DumpsInt(n) + rest;
    ParseNumber(t);
    if n < 0 {
      var ds := Digits(-n);
      assert t[1..] == ds + rest && t[1] == ds[0];
      ScanNumberOf(true, -n, rest);
    } else {
      assert t[0] == Digits(n)[0];
      ScanNumberOf(false, n, rest);
    }
  }

  // ---- floats ----

  predicate AllDigits(ds: seq<ascii>) {
    ds != [] && forall i :: 0 <= i < |ds| ==> IsDigit(ds[i])
  }

  ghost predicate IsWhole(ds: seq<ascii>) {
    AllDigits(ds) && (ds[0] == '0' as int ==> |ds| == 1)
  }

  ghost predicate IsFraction(f: seq<ascii>) {
    f == [] || (f[0] == '.' as int && AllDigits(f[1..]))
  }

  ghost predicate IsExponent(e: seq<ascii>) {
    || e == []
    || ((e[0] == 'e' as int || e[0] == 'E' as int)
        && (AllDigits(e[1..]) || (|e| > 1 && (e[1] == MINUS || e[1] == '+' as int) && AllDigits(e[2..]))))
  }

  ghost predicate IsDecimal(lexeme: seq<ascii>, sign: seq<ascii>, whole: seq<ascii>, fraction: seq<ascii>,
                            exponent: seq<ascii>)
  {
    && lexeme == sign + whole + fraction + exponent
    && (sign == [] || sign == [MINUS]) && IsWhole(whole) && IsFraction(fraction) && IsExponent(exponent)
    && (fraction != [] || exponent != [])
  }

  /** The characters of a float: section 6 of RFC 8259 with a fraction or an exponent, or one of the
      three words that Python adds. */
  ghost predicate IsFloatLexeme(lexeme: seq<ascii>) {
    || lexeme == Ascii("NaN") || lexeme == Ascii("Infinity") || lexeme == Ascii("-Infinity")
    || exists s: seq<ascii>, w: seq<ascii>, f: seq<ascii>, e: seq<ascii> :: IsDecimal(lexeme, s, w, f, e)
  }

  lemma ScanFractionOf(f: seq<ascii>, rest: text)
    requires IsFraction(f) && (rest == [] || (rest[0] != '.' as int && !IsDigit(rest[0])))
    ensures ScanFraction(f + rest) == (f, rest)
  {
    if f == [] {
      assert f + rest == rest;
    } else {
      assert (f + rest)[1..] == f[1..] + rest;
      ScanDigitsOf(f[1..], rest);
      assert f == [f[0]] + f[1..];
    }
  }

  lemma ScanExponentOf(e: seq<ascii>, rest: text)
    requires IsExponent(e) && Stops(rest)
    ensures ScanExponent(e + rest) == (e, rest)
  {
    if e == [] {
      assert e + rest == rest;
    } else {
      var t := e + rest;
      var n := if AllDigits(e[1..]) then 1 else 2;
      assert t[0] == e[0] && t[1] == e[1];
      assert n == 1 ==> IsDigit(e[1..][0]);
      assert t[n..] == e[n..] + rest;
      ScanDigitsOf(e[n..], rest);
      assert e == [e[0]] + e[1..n] + e[n..];
      assert n == 2 ==> e[1..n] == [t[1]];
    }
  }

  lemma ScanWhole(whole: seq<ascii>, rest: text)
    requires IsWhole(whole) && (rest == [] || !IsDigit(rest[0]))
    ensures var t := whole + rest;
      && t != [] && IsDigit(t[0])
      && (if t[0] == '0' as int then ([t[0]], t[1..]) else ScanDigits(t)) == (whole, rest)
  {
    ScanDigitsOf(whole, rest);
    assert (whole + rest)[0] == whole[0];
    if |whole| == 1 {
      assert whole == [whole[0]] && (whole + rest)[1..] == rest;
    }
  }

  lemma ScanDecimal(negative: bool, whole: seq<ascii>, fraction: seq<ascii>, exponent: seq<ascii>, rest: text)
    requires IsWhole(whole) && IsFraction(fraction) && IsExponent(exponent) && Stops(rest)
    requires fraction != [] || exponent != []
    ensures ScanNumber(negative, whole + fraction + exponent + rest)
         == Some((Float((if negative then [MINUS] else []) + whole + fraction + exponent), rest))
  {
    var afterFraction := exponent + rest;
    var afterWhole := fraction + afterFraction;
    assert whole + fraction + exponent + rest == whole + afterWhole;
    assert exponent != [] ==> afterFraction[0] == exponent[0];
    assert exponent == [] ==> afterFraction == rest;
    assert fraction != [] ==> afterWhole[0] == fraction[0];
    assert fraction == [] ==> afterWhole == afterFraction;
    ScanWhole(whole, afterWhole);
    ScanFractionOf(fraction, afterFraction);
    ScanExponentOf(exponent, rest);
    hide ScanDigits, ScanFraction, ScanExponent, IsFraction, IsExponent, IsWhole;
  }

  lemma ParseDecimal(lexeme: seq<ascii>, sign: seq<ascii>, whole: seq<ascii>, fraction: seq<ascii>, exponent: seq<ascii>,
                     rest: text)
    requires IsDecimal(lexeme, sign, whole, fraction, exponent) && Stops(rest)
    ensures ParseValue(lexeme + rest) == Some((Float(lexeme), rest))
  {
    hide ScanNumber, IsWhole, IsFraction, IsExponent, ParseValue, Stops;
    var t := lexeme + rest;
    var number := whole + fraction + exponent + rest;
    WholeStarts(whole);
    ScanDecimal(sign != [], whole, fraction, exponent, rest);
    assert number[0] == whole[0];
    ParseNumber(t);
    if sign == [] {
      assert lexeme == whole + fraction + exponent && t == number;
    } else {
      assert t == [MINUS] + number;
      assert t[1..] == number;
    }
  }

  /** A float survives JSON as the characters it is written with. */
  lemma ParseFloat(lexeme: seq<ascii>, rest: text)
    requires IsFloatLexeme(lexeme) && Stops(rest)
    ensures ParseValue(lexeme + rest) == Some((Float(lexeme), rest))
  {
    hide IsDecimal, ParseValue, Stops;
    if s: seq<ascii>, w: seq<ascii>, f: seq<ascii>, e: seq<ascii> :| IsDecimal(lexeme, s, w, f, e) {
      ParseDecimal(lexeme, s, w, f, e, rest);
    } else {
      ParseWord(lexeme, rest);
    }
  }

  lemma WholeStarts(whole: seq<ascii>)
    requires IsWhole(whole)
    ensures whole != [] && IsDigit(whole[0])
  {
  }

  lemma ParseWord(lexeme: seq<ascii>, rest: text)
    requires lexeme == Ascii("NaN") || lexeme == Ascii("Infinity") || lexeme == Ascii("-Infinity")
    ensures ParseValue(lexeme + rest) == Some((Float(lexeme), rest))
  {
    hide ScanNumber, ScanString, ParseItems, ParseMembers, SkipWhite;
    var t := lexeme + rest;
    assert t[..|lexeme|] == lexeme && t[|lexeme|..] == rest;
    assert t[0] == lexeme[0];
    assert Ascii("NaN")[0] == 'N' as int && Ascii("Infinity")[0] == 'I' as int;
    assert Ascii("-Infinity")[0] == MINUS && Ascii("-Infinity")[1] == 'I' as int;
    assert |lexeme| == 9 ==> t[1] == lexeme[1];
    assert Ascii("null")[0] == 'n' as int && Ascii("true")[0] == 't' as int && Ascii("false")[0] == 'f' as int;
  }

  // ---- dict displays ----

  lemma DictAppend(entries: seq<(text, Json)>, k: text, v: Json)
    ensures Dict(entries + [(k, v)]) == Dict(entries)[k := v]
  {
    assert (entries + [(k, v)])[..|entries|] == entries;
  }

  lemma DictFour(a: (text, Json), b: (text, Json), c: (text, Json), d: (text, Json))
    ensures Dict([a, b, c, d]) == map[][a.0 := a.1][b.0 := b.1][c.0 := c.1][d.0 := d.1]
  {
    assert [a, b, c, d] == (([] + [a]) + [b] + [c]) + [d];
    DictAppend([], a.0, a.1);
    DictAppend([] + [a], b.0, b.1);
    DictAppend([] + [a] + [b], c.0, c.1);
    DictAppend([] + [a] + [b] + [c], d.0, d.1);
  }

  // ---- values ----

  /** Every float in the value is written as one. */
  ghost predicate WellFormed(v: Json) {
    match v
    case Float(lexeme) => IsFloatLexeme(lexeme)
    case Arr(items) => forall i :: 0 <= i < |items| ==> WellFormed(items[i])
    case Obj(fields) => forall k :: k in fields ==> WellFormed(fields[k])
    case _ => true
  }

  /** A well-formed value without a dict key that JSON could merge with another one. */
  ghost predicate Plain(v: Json) {
    match v
    case Float(lexeme) => IsFloatLexeme(lexeme)
    case Arr(items) => forall i :: 0 <= i < |items| ==> Plain(items[i])
    case Obj(fields) => forall k :: k in fields ==> WellPaired(k) && Plain(fields[k])
    case _ => true
  }

  /** The value with every string and every key paired. Of keys that become equal the last in sorted
      order wins. */
  function PairJson(v: Json): Json
    decreases v, 1, 0
  {
    match v
    case Str(s) => Str(Pair(s))
    case Arr(items) => Arr(PairItems(items))
    case Obj(fields) => Obj(PairMembers(v, SortedKeys(fields.Keys), map[]))
    case _ => v
  }

  function PairItems(items: seq<Json>): (r: seq<Json>)
    ensures |r| == |items|
    decreases items, 0, 0
  {
    if items == [] then [] else [PairJson(items[0])] + PairItems(items[1..])
  }

  function PairMembers(v: Json, keys: seq<text>, fields: map<text, Json>): map<text, Json>
    requires v.Obj? && forall k :: k in keys ==> k in v.fields
    decreases v, 0, |keys|
  {
    if keys == [] then fields
    else PairMembers(v, keys[1..], fields[Pair(keys[0]) := PairJson(v.fields[keys[0]])])
  }

  /** All strings and keys are well paired, and all floats well formed. */
  ghost predicate JsonNormal(v: Json) {
    match v
    case Float(lexeme) => IsFloatLexeme(lexeme)
    case Str(s) => WellPaired(s)
    case Arr(items) => forall i :: 0 <= i < |items| ==> JsonNormal(items[i])
    case Obj(fields) => forall k :: k in fields ==> WellPaired(k) && JsonNormal(fields[k])
    case _ => true
  }

  lemma {:induction false} PlainIsWellFormed(v: Json)
    requires Plain(v)
    ensures WellFormed(v)
  {
    match v
    case Arr(items) =>
      forall i | 0 <= i < |items|
        ensures WellFormed(items[i])
      {
        PlainIsWellFormed(items[i]);
      }
    case Obj(fields) =>
      forall k | k in fields
        ensures WellFormed(fields[k])
      {
        PlainIsWellFormed(fields[k]);
      }
    case _ =>
  }

  lemma {:induction false} NormalIsPlain(v: Json)
    requires JsonNormal(v)
    ensures Plain(v) && WellFormed(v)
  {
    match v
    case Arr(items) =>
      forall i | 0 <= i < |items|
        ensures Plain(items[i]) && WellFormed(items[i])
      {
        NormalIsPlain(items[i]);
      }
    case Obj(fields) =>
      forall k | k in fields
        ensures Plain(fields[k]) && WellFormed(fields[k])
      {
        NormalIsPlain(fields[k]);
      }
    case _ =>
  }

  lemma DumpsStart(v: Json)
    requires WellFormed(v)
    ensures Dumps(v) != [] && !IsWhite(Dumps(v)[0])
    ensures Dumps(v)[0] != CLOSE_ARRAY && Dumps(v)[0] != CLOSE_OBJECT
  {
    match v
    case Null => assert Ascii("null")[0] == 'n' as int;
    case Bool(b) => assert Ascii("true")[0] == 't' as int && Ascii("false")[0] == 'f' as int;
    case Int(n) => assert n >= 0 ==> IsDigit(Digits(n)[0]);
    case Float(lexeme) => FloatStart(lexeme);
    case _ =>
  }

  lemma FloatStart(lexeme: seq<ascii>)
    requires IsFloatLexeme(lexeme)
    ensures lexeme != []
    ensures IsDigit(lexeme[0]) || lexeme[0] == MINUS || lexeme[0] == 'N' as int || lexeme[0] == 'I' as int
  {
    if s: seq<ascii>, w: seq<ascii>, f: seq<ascii>, e: seq<ascii> :| IsDecimal(lexeme, s, w, f, e) {
      assert s == [] ==> lexeme[0] == w[0];
      assert s != [] ==> lexeme[0] == s[0];
    }
  }

  lemma ParseKeyword(v: Json, rest: text)
    requires v.Null? || v.Bool?
    ensures ParseValue(Dumps(v) + rest) == Some((v, rest))
  {
    var t := Dumps(v) + rest;
    assert t[..|Dumps(v)|] == Dumps(v) && t[|Dumps(v)|..] == rest;
    assert t[0] == Dumps(v)[0];
    assert Ascii("null")[0] == 'n' as int && Ascii("true")[0] == 't' as int && Ascii("false")[0] == 'f' as int;
    hide ScanNumber, ScanString, ParseItems, ParseMembers, SkipWhite;
  }

  lemma ParseStr(s: text, rest: text)
    ensures ParseValue(DumpsStr(s) + rest) == Some((Str(Pair(s)), rest))
  {
    hide Escape, ScanKeyword, ScanNumber;
    var t := DumpsStr(s) + rest;
    assert t[1..] == Escape(s) + [QUOTE] + rest;
    ScanDumped(s, rest);
  }

  // One level of the parser at a time: `body` and `item` stand for what the levels below wrote.

  lemma ParseOpenArray(body: seq<ascii>, rest: text)
    ensures var t := [OPEN_ARRAY] + body + [CLOSE_ARRAY] + rest;
      && (body == [] ==> ParseValue(t) == Some((Arr([]), rest)))
      && (body != [] && !IsWhite(body[0]) && body[0] != CLOSE_ARRAY ==>
        ParseValue(t) == match ParseItems(body + [CLOSE_ARRAY] + rest)
                         case None => None
                         case Some((items, end)) => Some((Arr(items), end)))
  {
    hide ScanKeyword, ScanNumber, ScanString, ParseItems;
    var t := [OPEN_ARRAY] + body + [CLOSE_ARRAY] + rest;
    var inside := body + [CLOSE_ARRAY] + rest;
    assert t[1..] == inside;
    if body == [] {
      assert inside[1..] == rest;
    }
  }

  lemma ParseOpenObject(body: seq<ascii>, rest: text)
    ensures var t := [OPEN_OBJECT] + body + [CLOSE_OBJECT] + rest;
      && (body == [] ==> ParseValue(t) == Some((Obj(map[]), rest)))
      && (body != [] && body[0] == QUOTE ==> ParseValue(t) == ParseMembers(body + [CLOSE_OBJECT] + rest, map[]))
  {
    hide ScanKeyword, ScanNumber, ScanString, ParseMembers;
    var t := [OPEN_OBJECT] + body + [CLOSE_OBJECT] + rest;
    var inside := body + [CLOSE_OBJECT] + rest;
    assert t[1..] == inside;
    if body == [] {
      assert inside[1..] == rest;
    }
  }

  lemma ParseItem(item: seq<ascii>, w: Json, tail: text)
    requires tail != [] && Stops(tail) && !IsWhite(tail[0])
    requires ParseValue(item + tail) == Some((w, tail))
    ensures ParseItems(item + tail)
         == if tail[0] == CLOSE_ARRAY then Some(([w], tail[1..]))
            else if tail[0] != COMMA then None
            else match ParseItems(SkipWhite(tail[1..]))
              case None => None
              case Some((ws, end)) => Some(([w] + ws, end))
  {
    hide ParseValue;
    assert SkipWhite(tail) == tail;
  }

  lemma ParseMember(key: text, item: seq<ascii>, w: Json, tail: text, fields: map<text, Json>)
    requires item != [] && !IsWhite(item[0])
    requires tail != [] && Stops(tail) && !IsWhite(tail[0])
    requires ParseValue(item + tail) == Some((w, tail))
    ensures ParseMembers(DumpsStr(key) + [COLON] + item + tail, fields)
         == if tail[0] == CLOSE_OBJECT then Some((Obj(fields[Pair(key) := w]), tail[1..]))
            else if tail[0] != COMMA then None
            else ParseMembers(SkipWhite(tail[1..]), fields[Pair(key) := w])
  {
    hide ParseValue, Escape, ScanString;
    var t := DumpsStr(key) + [COLON] + item + tail;
    var colon := [COLON] + item + tail;
    assert t[1..] == Escape(key) + [QUOTE] + colon;
    ScanDumped(key, colon);
    assert colon[1..] == item + tail;
    assert SkipWhite(tail) == tail;
  }

  lemma {:induction false} PairMembersPlain(v: Json, keys: seq<text>, fields: map<text, Json>)
    requires v.Obj? && forall k :: k in keys ==> k in v.fields && WellPaired(k)
    requires forall k :: k in fields && k in v.fields ==> fields[k] == PairJson(v.fields[k])
    ensures var m := PairMembers(v, keys, fields);
      && (forall k :: k in m <==> k in fields || k in keys)
      && (forall k :: k in m && k in v.fields ==> m[k] == PairJson(v.fields[k]))
    decreases |keys|
  {
    if keys != [] {
      hide PairJson;
      PairIdentity(keys[0]);
      PairMembersPlain(v, keys[1..], fields[keys[0] := PairJson(v.fields[keys[0]])]);
      assert forall k :: k in keys <==> k == keys[0] || k in keys[1..];
    }
  }

  lemma PairedFields(v: Json)
    requires v.Obj? && forall k :: k in v.fields ==> WellPaired(k)
    ensures PairJson(v).Obj? && PairJson(v).fields.Keys == v.fields.Keys
    ensures forall k :: k in v.fields ==> PairJson(v).fields[k] == PairJson(v.fields[k])
  {
    hide WellPaired;
    PairMembersPlain(v, SortedKeys(v.fields.Keys), map[]);
  }

  lemma SameMap(m: map<text, Json>, n: map<text, Json>)
    requires m.Keys == n.Keys && forall k :: k in m ==> m[k] == n[k]
    ensures m == n
  {
  }

  lemma ObjAppendPlain(m: map<text, Json>, k: text, v: Json)
    requires Plain(Obj(m)) && WellPaired(k) && Plain(v)
    ensures Plain(Obj(m[k := v]))
    ensures forall j :: j in m || j == k ==> WellPaired(j)
  {
    hide WellPaired, IsFloatLexeme;
  }

  lemma ObjAppendPaired(m: map<text, Json>, k: text, v: Json)
    requires Plain(Obj(m)) && WellPaired(k) && Plain(v)
    ensures Plain(Obj(m[k := v])) && PairJson(Obj(m[k := v])) == Obj(PairJson(Obj(m)).fields[k := PairJson(v)])
  {
    hide WellPaired, Plain, PairJson;
    ObjAppendPlain(m, k, v);
    PairedFields(Obj(m));
    PairedFields(Obj(m[k := v]));
    SameMap(PairJson(Obj(m[k := v])).fields, PairJson(Obj(m)).fields[k := PairJson(v)]);
  }

  /** Pairing a dict display pairs its values. */
  lemma {:induction false} DictPaired(entries: seq<(text, Json)>, paired: seq<(text, Json)>)
    requires |entries| == |paired|
    requires forall i :: 0 <= i < |entries| ==>
               WellPaired(entries[i].0) && Plain(entries[i].1) && paired[i] == (entries[i].0, PairJson(entries[i].1))
    ensures Plain(Obj(Dict(entries))) && PairJson(Obj(Dict(entries))) == Obj(Dict(paired))
  {
    var n := |entries| - 1;
    if n >= 0 {
      hide PairJson, Plain, WellPaired;
      DictPaired(entries[..n], paired[..n]);
      ObjAppendPaired(Dict(entries[..n]), entries[n].0, entries[n].1);
    } else {
      PairedFields(Obj(map[]));
      assert PairJson(Obj(map[])).fields == map[];
    }
  }

  lemma AsciiWellPaired(s: seq<ascii>)
    ensures WellPaired(s)
  {
  }

  lemma MembersStart(v: Json, keys: seq<text>)
    requires v.Obj? && forall k :: k in keys ==> k in v.fields
    ensures if keys == [] then DumpsMembers(v, keys) == []
            else DumpsMembers(v, keys) != [] && DumpsMembers(v, keys)[0] == QUOTE
  {
  }

  /** Reading back a dumped value returns its paired form and stops where the value stops. */
  lemma {:induction false} ParseDumps(v: Json, rest: text)
    requires WellFormed(v) && (v.Int? || v.Float? ==> Stops(rest))
    ensures ParseValue(Dumps(v) + rest) == Some((PairJson(v), rest))
    decreases v, 1, 0
  {
    match v
    case Null => ParseKeyword(v, rest);
    case Bool(_) => ParseKeyword(v, rest);
    case Int(n) => ParseInt(n, rest);
    case Float(lexeme) => ParseFloat(lexeme, rest);
    case Str(s) => ParseStr(s, rest);
    case Arr(items) => ParseDumpedArray(items, rest);
    case Obj(_) => ParseDumpedObject(v, rest);
  }

  lemma {:induction false} ParseDumpedArray(items: seq<Json>, rest: text)
    requires forall i :: 0 <= i < |items| ==> WellFormed(items[i])
    ensures ParseValue(Dumps(Arr(items)) + rest) == Some((Arr(PairItems(items)), rest))
    decreases items, 1, 0
  {
    hide ParseValue, ParseItems;
    ParseOpenArray(DumpsItems(items), rest);
    if items != [] {
      ParseDumpedItems(items, rest);
      DumpsStart(items[0]);
    }
  }

  lemma ItemsUnfold(items: seq<Json>)
    requires items != []
    ensures |items| == 1 ==> DumpsItems(items) == Dumps(items[0]) && PairItems(items) == [PairJson(items[0])]
    ensures |items| > 1 ==> DumpsItems(items) == Dumps(items[0]) + [COMMA] + DumpsItems(items[1..])
    ensures |items| > 1 ==> PairItems(items) == [PairJson(items[0])] + PairItems(items[1..])
    ensures DumpsItems(items) != [] || Dumps(items[0]) == []
    ensures Dumps(items[0]) != [] ==> DumpsItems(items)[0] == Dumps(items[0])[0]
  {
    hide Dumps, PairJson;
  }

  lemma Regroup(item: seq<ascii>, more: seq<ascii>, rest: text)
    ensures item + [COMMA] + more + [CLOSE_ARRAY] + rest == item + ([COMMA] + (more + [CLOSE_ARRAY] + rest))
  {
  }

  lemma {:induction false} ParseDumpedItems(items: seq<Json>, rest: text)
    requires items != [] && forall i :: 0 <= i < |items| ==> WellFormed(items[i])
    ensures ParseItems(DumpsItems(items) + [CLOSE_ARRAY] + rest) == Some((PairItems(items), rest))
    decreases items, 0, 0
  {
    hide Dumps, DumpsItems, ParseValue, ParseItems, PairJson, PairItems;
    var item, w := Dumps(items[0]), PairJson(items[0]);
    ItemsUnfold(items);
    if |items| == 1 {
      var close: text := [CLOSE_ARRAY] + rest;
      ParseDumps(items[0], close);
      ParseItem(item, w, close);
      assert DumpsItems(items) + [CLOSE_ARRAY] + rest == item + close;
      assert close[1..] == rest;
    } else {
      var more := DumpsItems(items[1..]);
      var after := more + [CLOSE_ARRAY] + rest;
      var tail: text := [COMMA] + after;
      ParseDumps(items[0], tail);
      ParseItem(item, w, tail);
      ParseDumpedItems(items[1..], rest);
      Regroup(item, more, rest);
      ItemsUnfold(items[1..]);
      DumpsStart(items[1]);
      assert tail[1..] == after && after[0] == more[0];
    }
  }

  lemma {:induction false} ParseDumpedObject(v: Json, rest: text)
    requires v.Obj? && WellFormed(v)
    ensures ParseValue(Dumps(v) + rest) == Some((PairJson(v), rest))
    decreases v, 0, |v.fields| + 1
  {
    hide ParseValue, ParseMembers, DumpsMembers, PairJson;
    var keys := SortedKeys(v.fields.Keys);
    ParseOpenObject(DumpsMembers(v, keys), rest);
    MembersStart(v, keys);
    PairedObject(v);
    if keys != [] {
      ParseDumpedMembers(v, keys, map[], rest);
    }
  }

  lemma PairedObject(v: Json)
    requires v.Obj?
    ensures PairJson(v) == Obj(PairMembers(v, SortedKeys(v.fields.Keys), map[]))
    ensures PairMembers(v, [], map[]) == map[]
  {
  }

  lemma PairMembersCons(v: Json, keys: seq<text>, fields: map<text, Json>)
    requires v.Obj? && keys != [] && forall k :: k in keys ==> k in v.fields
    ensures PairMembers(v, keys, fields)
         == PairMembers(v, keys[1..], fields[Pair(keys[0]) := PairJson(v.fields[keys[0]])])
    ensures |keys| == 1 ==>
              PairMembers(v, keys, fields) == fields[Pair(keys[0]) := PairJson(v.fields[keys[0]])]
  {
    hide PairJson;
  }

  lemma {:induction false} ParseDumpedMembers(v: Json, keys: seq<text>, fields: map<text, Json>, rest: text)
    requires v.Obj? && WellFormed(v) && keys != [] && forall k :: k in keys ==> k in v.fields
    ensures ParseMembers(DumpsMembers(v, keys) + [CLOSE_OBJECT] + rest, fields)
         == Some((Obj(PairMembers(v, keys, fields)), rest))
    decreases v, 0, |keys|
  {
    hide Dumps, DumpsStr, ParseValue, ParseMembers, PairJson, PairMembers, Pair;
    PairMembersCons(v, keys, fields);
    var key, item, w := keys[0], Dumps(v.fields[keys[0]]), PairJson(v.fields[keys[0]]);
    var member := DumpsStr(key) + [COLON] + item;
    DumpsStart(v.fields[key]);
    if |keys| == 1 {
      var close: text := [CLOSE_OBJECT] + rest;
      ParseDumps(v.fields[key], close);
      ParseMember(key, item, w, close, fields);
      assert DumpsMembers(v, keys) + [CLOSE_OBJECT] + rest == member + close;
      assert close[1..] == rest;
    } else {
      var after := DumpsMembers(v, keys[1..]) + [CLOSE_OBJECT] + rest;
      var tail: text := [COMMA] + after;
      ParseDumps(v.fields[key], tail);
      ParseMember(key, item, w, tail, fields);
      ParseDumpedMembers(v, keys[1..], fields[Pair(key) := w], rest);
      assert DumpsMembers(v, keys) + [CLOSE_OBJECT] + rest == member + tail;
      MembersStart(v, keys[1..]);
      assert tail[1..] == after && after[0] == QUOTE;
    }
  }

  // ---- when pairing changes nothing ----

  lemma {:induction false} PairMembersKeys(v: Json, keys: seq<text>, fields: map<text, Json>)
    requires v.Obj? && forall k :: k in keys ==> k in v.fields
    requires forall k :: k in fields ==> WellPaired(k)
    ensures forall k :: k in PairMembers(v, keys, fields) ==> WellPaired(k)
    decreases |keys|
  {
    if keys != [] {
      hide PairJson, WellPaired;
      PairIsWellPaired(keys[0]);
      PairMembersKeys(v, keys[1..], fields[Pair(keys[0]) := PairJson(v.fields[keys[0]])]);
    }
  }

  lemma {:induction false} PairItemsAt(items: seq<Json>, i: nat)
    requires i < |items|
    ensures PairItems(items)[i] == PairJson(items[i])
  {
    if i > 0 {
      hide PairJson;
      PairItemsAt(items[1..], i - 1);
    }
  }

  /** Pairing leaves a well-formed value alone exactly when all its strings and keys are well paired. */
  lemma {:induction false} NormalExact(v: Json)
    requires WellFormed(v)
    ensures PairJson(v) == v <==> JsonNormal(v)
    decreases v
  {
    match v
    case Str(s) => PairIdentity(s);
    case Arr(items) => NormalItems(items);
    case Obj(fields) => NormalFields(v);
    case _ =>
  }

  lemma {:induction false} NormalItems(items: seq<Json>)
    requires WellFormed(Arr(items))
    ensures PairJson(Arr(items)) == Arr(items) <==> JsonNormal(Arr(items))
    decreases items
  {
    forall i | 0 <= i < |items|
      ensures PairItems(items)[i] == items[i] <==> JsonNormal(items[i])
    {
      PairItemsAt(items, i);
      NormalExact(items[i]);
    }
    hide PairItems;
    assert PairItems(items) == items <==> forall i :: 0 <= i < |items| ==> PairItems(items)[i] == items[i];
  }

  lemma {:induction false} NormalFields(v: Json)
    requires v.Obj? && WellFormed(v)
    ensures PairJson(v) == v <==> JsonNormal(v)
    decreases v, 0
  {
    forall k | k in v.fields
      ensures PairJson(v.fields[k]) == v.fields[k] <==> JsonNormal(v.fields[k])
    {
      NormalExact(v.fields[k]);
    }
    hide WellPaired;
    PairedObject(v);
    PairMembersKeys(v, SortedKeys(v.fields.Keys), map[]);
    if forall k :: k in v.fields ==> WellPaired(k) {
      PairedFields(v);
      hide PairJson, PairMembers;
      if JsonNormal(v) {
        SameMap(PairJson(v).fields, v.fields);
      }
    }
  }

  // ---- main results ----

  /** `json.loads(json.dumps(v))` is v with its strings and keys paired; it is v exactly for JSON-normal
      values. */
  lemma LoadsDumps(v: Json)
    requires WellFormed(v)
    ensures Loads(Dumps(v)) == Some(PairJson(v))
    ensures Loads(Dumps(v)) == Some(v) <==> JsonNormal(v)
  {
    hide ParseValue, Dumps, PairJson;
    Utf8.EncodeAscii(Dumps(v));
    Utf8.DecodeEncode(Dumps(v));
    DumpsStart(v);
    ParseDumps(v, []);
    NormalExact(v);
    assert Dumps(v) + [] == Dumps(v);
  }
}
