/** What `json.loads` accepts, and what it makes of it: the grammar of RFC 8259, with the three words that
    Python adds and with lone surrogates, each document read in one way. */
module JsonGrammar {
  import opened Basics
  import opened Hex
  import opened Json
  import opened JsonRoundTrip

  // ---- concrete syntax ----

  /** A character of a string literal: itself, after a backslash, or as `\u` and four hex digits. */
  datatype Piece = Raw(c: codepoint) | Short(letter: codepoint) | Unit(digits: text)
  {
    predicate Valid() {
      match this
      case Raw(c) => c >= 0x20 && c != QUOTE && c != BACKSLASH
      case Short(letter) => ShortValue(letter).Some?
      case Unit(digits) => UnitValue(digits).Some?
    }

    function Text(): text {
      match this
      case Raw(c) => [c]
      case Short(letter) => [BACKSLASH, letter]
      case Unit(digits) => [BACKSLASH, U] + digits
    }

    /** The code point or UTF-16 unit that the piece stands for. */
    function Value(): codepoint
      requires Valid()
    {
      match this
      case Raw(c) => c
      case Short(letter) => ShortValue(letter).value
      case Unit(digits) => UnitValue(digits).value
    }
  }

  function ShortValue(letter: codepoint): Option<codepoint> {
    if letter == '"' as int || letter == '\\' as int || letter == '/' as int then Some(letter)
    else if letter == 'b' as int then Some(0x08)
    else if letter == 'f' as int then Some(0x0C)
    else if letter == 'n' as int then Some(0x0A)
    else if letter == 'r' as int then Some(0x0D)
    else if letter == 't' as int then Some(0x09)
    else None
  }

  function UnitValue(digits: text): (r: Option<codepoint>)
    ensures r.Some? ==> r.value < 0x1_0000
  {
    if |digits| != 4 then None
    else match (HexValue(digits[0]), HexValue(digits[1]), HexValue(digits[2]), HexValue(digits[3]))
      case (Some(a), Some(b), Some(c), Some(d)) =>
        Some(a as int * 0x1000 + b as int * 0x100 + c as int * 0x10 + d as int)
      case _ => None
  }

  ghost predicate AllPieces(ps: seq<Piece>) {
    forall i :: 0 <= i < |ps| ==> ps[i].Valid()
  }

  function Spelled(ps: seq<Piece>): text {
    if ps == [] then [] else ps[0].Text() + Spelled(ps[1..])
  }

  /** The string that pieces stand for: an escaped high unit joins an escaped low unit behind it. */
  function Chars(ps: seq<Piece>): text
    requires AllPieces(ps)
  {
    if ps == [] then []
    else if |ps| >= 2 && ps[0].Unit? && IsHigh(ps[0].Value()) && ps[1].Unit? && IsLow(ps[1].Value())
    then [Paired(ps[0].Value(), ps[1].Value())] + Chars(ps[2..])
    else [ps[0].Value()] + Chars(ps[1..])
  }

  /** A document as it is written. */
  datatype Doc =
    | Word(value: Json)
    | Number(negative: bool, whole: seq<ascii>, fraction: seq<ascii>, exponent: seq<ascii>)
    | Quoted(pieces: seq<Piece>)
    | List(white: text, items: seq<Item>)
    | Dict(white: text, members: seq<Entry>)

  datatype Item = Item(before: text, value: Doc, after: text)

  datatype Entry = Entry(before: text, key: seq<Piece>, gap: text, lead: text, value: Doc, after: text)

  predicate White(t: text) {
    forall i :: 0 <= i < |t| ==> IsWhite(t[i])
  }

  predicate IsWord(v: Json) {
    || v.Null? || v.Bool?
    || v == Float(Ascii("NaN")) || v == Float(Ascii("Infinity")) || v == Float(Ascii("-Infinity"))
  }

  ghost predicate Valid(d: Doc)
    decreases d, 1
  {
    match d
    case Word(v) => IsWord(v)
    case Number(_, whole, fraction, exponent) => IsWhole(whole) && IsFraction(fraction) && IsExponent(exponent)
    case Quoted(pieces) => AllPieces(pieces)
    case List(white, items) => White(white) && forall i :: 0 <= i < |items| ==> ValidItem(items[i])
    case Dict(white, members) => White(white) && forall i :: 0 <= i < |members| ==> ValidEntry(members[i])
  }

  ghost predicate ValidItem(i: Item)
    decreases i, 0
  {
    White(i.before) && Valid(i.value) && White(i.after)
  }

  ghost predicate ValidEntry(e: Entry)
    decreases e, 0
  {
    White(e.before) && AllPieces(e.key) && White(e.gap) && White(e.lead) && Valid(e.value) && White(e.after)
  }

  function Sign(negative: bool): seq<ascii> {
    if negative then [MINUS] else []
  }

  function Text(d: Doc): text
    decreases d, 1
  {
    match d
    case Word(v) => Dumps(v)
    case Number(negative, whole, fraction, exponent) => Sign(negative) + whole + fraction + exponent
    case Quoted(pieces) => [QUOTE] + Spelled(pieces) + [QUOTE]
    case List(white, items) => [OPEN_ARRAY] + (if items == [] then white else ItemsText(items)) + [CLOSE_ARRAY]
    case Dict(white, members) => [OPEN_OBJECT] + (if members == [] then white else EntriesText(members)) + [CLOSE_OBJECT]
  }

  function ItemsText(items: seq<Item>): text
    decreases items, 0
  {
    if items == [] then []
    else items[0].before + Text(items[0].value) + items[0].after
         + (if |items| == 1 then [] else [COMMA] + ItemsText(items[1..]))
  }

  function EntriesText(members: seq<Entry>): text
    decreases members, 0
  {
    if members == [] then []
    else
      var e := members[0];
      e.before + ([QUOTE] + Spelled(e.key) + [QUOTE]) + e.gap + [COLON] + e.lead + Text(e.value) + e.after
      + (if |members| == 1 then [] else [COMMA] + EntriesText(members[1..]))
  }

  function Meaning(d: Doc): Json
    requires Valid(d)
    decreases d, 1
  {
    match d
    case Word(v) => v
    case Number(negative, whole, fraction, exponent) =>
      if fraction == [] && exponent == [] then Int(if negative then -(DigitsValue(whole) as int) else DigitsValue(whole))
      else Float(Sign(negative) + whole + fraction + exponent)
    case Quoted(pieces) => Str(Chars(pieces))
    case List(_, items) => Arr(Meanings(items))
    case Dict(_, members) => Obj(Fields(members, map[]))
  }

  function Meanings(items: seq<Item>): seq<Json>
    requires forall i :: 0 <= i < |items| ==> ValidItem(items[i])
    decreases items, 0
  {
    if items == [] then []
    else
      assert ValidItem(items[0]);
      [Meaning(items[0].value)] + Meanings(items[1..])
  }

  /** Members in the order of the text; a repeated key keeps its last value. */
  function Fields(members: seq<Entry>, fields: map<text, Json>): map<text, Json>
    requires forall i :: 0 <= i < |members| ==> ValidEntry(members[i])
    decreases members, 0
  {
    if members == [] then fields
    else
      assert ValidEntry(members[0]);
      Fields(members[1..], fields[Chars(members[0].key) := Meaning(members[0].value)])
  }

  // ---- strings ----

  lemma UnitScanned(digits: text, rest: text)
    requires UnitValue(digits).Some?
    ensures ScanUnit(digits + rest) == Some((UnitValue(digits).value, rest))
  {
    var t := digits + rest;
    assert t[0] == digits[0] && t[1] == digits[1] && t[2] == digits[2] && t[3] == digits[3] && t[4..] == rest;
  }

  /** An escaped low unit stands at the front of pieces exactly where the reader sees one. */
  lemma LowAhead(ps: seq<Piece>, close: text)
    requires AllPieces(ps) && close != [] && close[0] == QUOTE
    ensures ScanLowEscape(Spelled(ps) + close)
         == if ps != [] && ps[0].Unit? && IsLow(ps[0].Value()) then Some((ps[0].Value(), Spelled(ps[1..]) + close)) else None
  {
    if ps == [] {
      assert Spelled(ps) + close == close;
    } else {
      var rest := Spelled(ps[1..]) + close;
      FirstPiece(ps, close);
      hide *;
      LowPiece(ps[0], rest);
    }
  }

  lemma FirstPiece(ps: seq<Piece>, close: text)
    requires ps != []
    ensures Spelled(ps) + close == ps[0].Text() + (Spelled(ps[1..]) + close)
  {
    var more := Spelled(ps[1..]);
    assert Spelled(ps) == ps[0].Text() + more;
    hide *;
    SumAssociates(ps[0].Text(), more, close);
  }

  lemma LowPiece(p: Piece, rest: text)
    requires p.Valid()
    ensures ScanLowEscape(p.Text() + rest) == if p.Unit? && IsLow(p.Value()) then Some((p.Value(), rest)) else None
  {
    var t := p.Text() + rest;
    match p
    case Raw(c) =>
      assert t[0] == c;
    case Short(letter) =>
      hide ScanUnit;
      assert t[1] == letter && letter != U;
    case Unit(digits) =>
      UnitScanned(digits, rest);
      hide HexValue, ScanUnit, UnitValue;
      assert t[0] == BACKSLASH && t[1] == U && t[2..] == digits + rest;
  }

  lemma EscapeScanned(p: Piece, ps: seq<Piece>, close: text)
    requires p.Valid() && !p.Raw? && AllPieces(ps) && close != [] && close[0] == QUOTE
    ensures var t := p.Text() + (Spelled(ps) + close);
      && t[0] == BACKSLASH
      && ScanEscape(t[1..])
         == if p.Unit? && IsHigh(p.Value()) && ps != [] && ps[0].Unit? && IsLow(ps[0].Value())
            then Some((Paired(p.Value(), ps[0].Value()), Spelled(ps[1..]) + close))
            else Some((p.Value(), Spelled(ps) + close))
  {
    hide HexValue, ScanUnit, UnitValue, ScanLowEscape, Spelled;
    var rest := Spelled(ps) + close;
    var t := p.Text() + rest;
    match p
    case Short(letter) => assert t[1..] == [letter] + rest && t[1..][1..] == rest;
    case Unit(digits) =>
      assert t[1..][0] == U && t[1..][1..] == digits + rest;
      UnitScanned(digits, rest);
      LowAhead(ps, close);
  }

  lemma StringUnfold(t: text)
    ensures ScanString(t)
         == if t == [] || t[0] < 0x20 then None
            else if t[0] == QUOTE then Some(([], t[1..]))
            else if t[0] == BACKSLASH then
              match ScanEscape(t[1..])
              case None => None
              case Some((c, rest)) => Prepend(c, ScanString(rest))
            else Prepend(t[0], ScanString(t[1..]))
  {
    hide ScanEscape;
  }

  lemma RawScanned(p: Piece, rest: text)
    requires p.Raw? && p.Valid()
    ensures ScanString(p.Text() + rest) == Prepend(p.Value(), ScanString(rest))
  {
    StringUnfold([p.c] + rest);
    hide ScanString;
    assert ([p.c] + rest)[0] == p.c && ([p.c] + rest)[1..] == rest;
  }

  lemma CharsUnfold(ps: seq<Piece>)
    requires AllPieces(ps) && ps != []
    ensures ps[0].Valid() && AllPieces(ps[1..])
    ensures |ps| >= 2 && ps[1].Valid() && ps[0].Unit? && IsHigh(ps[0].Value()) && ps[1].Unit? && IsLow(ps[1].Value()) ==>
              AllPieces(ps[2..]) && Chars(ps) == [Paired(ps[0].Value(), ps[1].Value())] + Chars(ps[2..])
    ensures !(|ps| >= 2 && ps[1].Valid() && ps[0].Unit? && IsHigh(ps[0].Value()) && ps[1].Unit? && IsLow(ps[1].Value())) ==>
              Chars(ps) == [ps[0].Value()] + Chars(ps[1..])
    ensures |ps| >= 2 ==> ps[1].Valid() && ps[1..][0] == ps[1] && ps[1..][1..] == ps[2..]
  {
    hide Piece.Value, Piece.Valid;
  }

  lemma NothingSpelled(close: text)
    requires close != [] && close[0] == QUOTE
    ensures ScanString(Spelled([]) + close) == Some((Chars([]), close[1..]))
  {
    assert Spelled([]) + close == close;
  }

  lemma EscapedString(t: text)
    requires t != [] && t[0] == BACKSLASH
    ensures ScanString(t) == match ScanEscape(t[1..])
                             case None => None
                             case Some((c, rest)) => Prepend(c, ScanString(rest))
  {
    StringUnfold(t);
    hide ScanString, ScanEscape;
  }

  lemma Prepended(c: codepoint, s: text, rest: text)
    ensures Prepend(c, Some((s, rest))) == Some(([c] + s, rest))
  {
  }

  /** Every spelling of a string is read as it. */
  lemma {:induction false} SpelledScanned(ps: seq<Piece>, close: text)
    requires AllPieces(ps) && close != [] && close[0] == QUOTE
    ensures ScanString(Spelled(ps) + close) == Some((Chars(ps), close[1..]))
    decreases |ps|
  {
    if ps == [] {
      NothingSpelled(close);
    } else {
      hide *;
      CharsUnfold(ps);
      FirstPiece(ps, close);
      SpelledScanned(ps[1..], close);
      Prepended(ps[0].Value(), Chars(ps[1..]), close[1..]);
      if ps[0].Raw? {
        RawScanned(ps[0], Spelled(ps[1..]) + close);
      } else {
        EscapeScanned(ps[0], ps[1..], close);
        EscapedString(Spelled(ps) + close);
        if |ps| >= 2 && ps[0].Unit? && IsHigh(ps[0].Value()) && ps[1].Unit? && IsLow(ps[1].Value()) {
          SpelledScanned(ps[2..], close);
          Prepended(Paired(ps[0].Value(), ps[1].Value()), Chars(ps[2..]), close[1..]);
        }
      }
    }
  }

  lemma UnitRead(t: text)
    requires ScanUnit(t).Some?
    ensures |t| >= 4 && UnitValue(t[..4]) == Some(ScanUnit(t).value.0) && ScanUnit(t).value.1 == t[4..]
  {
    assert t[..4][0] == t[0] && t[..4][1] == t[1] && t[..4][2] == t[2] && t[..4][3] == t[3];
  }

  lemma UnitTaken(t: text) returns (p: Piece)
    requires t != [] && t[0] == U && ScanUnit(t[1..]).Some?
    ensures var (u, after) := ScanUnit(t[1..]).value;
      p.Valid() && p.Unit? && p.Value() == u && [BACKSLASH] + t == p.Text() + after
  {
    UnitRead(t[1..]);
    var digits := t[1..][..4];
    p := Unit(digits);
    var (u, after) := ScanUnit(t[1..]).value;
    hide HexValue, ScanUnit, UnitValue;
    HeadTail(t);
    assert t[1..] == digits + after;
    assert [BACKSLASH] + ([U] + (digits + after)) == [BACKSLASH, U] + digits + after;
  }

  /** What an accepted escape is written as: one piece, or two that join. */
  lemma EscapeRead(t: text) returns (p: Piece, q: Option<Piece>)
    requires ScanEscape(t).Some?
    ensures p.Valid() && !p.Raw? && (q.Some? ==> q.value.Valid())
    ensures var (c, rest) := ScanEscape(t).value;
      match q
      case None => [BACKSLASH] + t == p.Text() + rest && c == p.Value() && (p.Unit? && IsHigh(c) ==> ScanLowEscape(rest) == None)
      case Some(low) => && [BACKSLASH] + t == p.Text() + (low.Text() + rest)
                        && p.Unit? && IsHigh(p.Value()) && low.Unit? && IsLow(low.Value())
                        && c == Paired(p.Value(), low.Value())
  {
    hide HexValue, ScanUnit, UnitValue;
    var (c, rest) := ScanEscape(t).value;
    q := None;
    if t[0] == U {
      p := UnitTaken(t);
      var (u, after) := ScanUnit(t[1..]).value;
      hide Piece.Text, Piece.Value, Piece.Valid;
      if IsHigh(u) && ScanLowEscape(after).Some? {
        var low := UnitTaken(after[1..]);
        HeadTail(after);
        q := Some(low);
      }
    } else {
      p := Short(t[0]);
      HeadTail(t);
      assert [BACKSLASH] + ([t[0]] + t[1..]) == [BACKSLASH, t[0]] + t[1..];
    }
  }

  /** Whatever is read as a string is one of its spellings. */
  lemma {:induction false} StringRead(t: text) returns (ps: seq<Piece>)
    requires ScanString(t).Some?
    ensures var (s, rest) := ScanString(t).value;
      AllPieces(ps) && t == Spelled(ps) + ([QUOTE] + rest) && s == Chars(ps)
    decreases |t|
  {
    var (s, rest) := ScanString(t).value;
    var close := [QUOTE] + rest;
    if t[0] == QUOTE {
      ps := [];
      assert t == [t[0]] + t[1..];
      assert Spelled(ps) + close == close;
    } else if t[0] == BACKSLASH {
      assert t == [BACKSLASH] + t[1..];
      var (c, after) := ScanEscape(t[1..]).value;
      var more := StringRead(after);
      var p, q := EscapeRead(t[1..]);
      ps := (match q case None => [p] case Some(low) => [p, low]) + more;
      hide ScanEscape, ScanString, ScanLowEscape;
      PiecesInFront(p, q, more, close);
      if q == None {
        LowAhead(more, close);
      }
      CharsInFront(p, q, more);
    } else {
      var more := StringRead(t[1..]);
      var p := Raw(t[0]);
      ps := [p] + more;
      assert t == [t[0]] + t[1..];
      assert t[0] >= 0x20;
      assert t[0] != QUOTE;
      assert t[0] != BACKSLASH;
      assert p.Valid();
      PiecesInFront(p, None, more, close);
      CharsInFront(p, None, more);
    }
  }

  lemma PiecesInFront(p: Piece, q: Option<Piece>, more: seq<Piece>, close: text)
    ensures q == None ==> Spelled([p] + more) + close == p.Text() + (Spelled(more) + close)
    ensures q.Some? ==> Spelled([p, q.value] + more) + close == p.Text() + (q.value.Text() + (Spelled(more) + close))
  {
    hide *;
    assert ([p] + more)[1..] == more;
    FirstPiece([p] + more, close);
    if q.Some? {
      var rest := [q.value] + more;
      assert rest[1..] == more && [p, q.value] + more == [p] + rest && ([p] + rest)[1..] == rest;
      FirstPiece(rest, close);
      FirstPiece([p] + rest, close);
    }
  }

  lemma CharsInFront(p: Piece, q: Option<Piece>, more: seq<Piece>)
    requires p.Valid() && AllPieces(more) && (q.Some? ==> q.value.Valid())
    requires q.Some? ==> p.Unit? && IsHigh(p.Value()) && q.value.Unit? && IsLow(q.value.Value())
    requires q == None && p.Unit? && IsHigh(p.Value()) ==> !(more != [] && more[0].Unit? && IsLow(more[0].Value()))
    ensures q == None ==> AllPieces([p] + more) && Chars([p] + more) == [p.Value()] + Chars(more)
    ensures q.Some? ==> AllPieces([p, q.value] + more)
                        && Chars([p, q.value] + more) == [Paired(p.Value(), q.value.Value())] + Chars(more)
  {
    hide Piece.Value, Piece.Valid;
    assert ([p] + more)[1..] == more;
    if q.Some? {
      assert ([p, q.value] + more)[2..] == more;
    }
  }

  // ---- white space ----

  lemma {:induction false} SkipsWhite(white: text, t: text)
    requires White(white)
    ensures SkipWhite(white + t) == SkipWhite(t)
  {
    if white == [] {
      assert white + t == t;
    } else {
      SkipsWhite(white[1..], t);
      assert (white + t)[0] == white[0] && (white + t)[1..] == white[1..] + t;
    }
  }

  lemma {:induction false} SkippedWhite(t: text) returns (white: text)
    ensures White(white) && t == white + SkipWhite(t)
    ensures SkipWhite(t) == [] || !IsWhite(SkipWhite(t)[0])
  {
    if t != [] && IsWhite(t[0]) {
      var more := SkippedWhite(t[1..]);
      white := [t[0]] + more;
      assert t == [t[0]] + t[1..];
    } else {
      white := [];
      assert t == [] + t;
    }
  }

  /** White space, then something that is none. */
  lemma SkipsTo(white: text, t: text)
    requires White(white) && (t == [] || !IsWhite(t[0]))
    ensures SkipWhite(white + t) == t
  {
    SkipsWhite(white, t);
  }

  // ---- numbers and words ----

  lemma NumberScanned(d: Doc, rest: text)
    requires d.Number? && Valid(d) && Stops(rest)
    ensures ScanNumber(d.negative, d.whole + d.fraction + d.exponent + rest) == Some((Meaning(d), rest))
  {
    if d.fraction == [] && d.exponent == [] {
      assert d.whole + d.fraction + d.exponent + rest == d.whole + rest;
      WholeScanned(d.negative, d.whole, rest);
    } else {
      ScanDecimal(d.negative, d.whole, d.fraction, d.exponent, rest);
    }
    hide ScanNumber, IsWhole, IsFraction, IsExponent, DigitsValue;
  }

  lemma NumberText(d: Doc, rest: text) returns (number: text)
    requires d.Number? && d.whole != []
    ensures number == d.whole + d.fraction + d.exponent + rest && number[0] == d.whole[0]
    ensures Text(d) + rest == if d.negative then [MINUS] + number else number
  {
    number := d.whole + d.fraction + d.exponent + rest;
    var body: seq<ascii> := d.whole + d.fraction + d.exponent;
    assert Text(d) == Sign(d.negative) + d.whole + d.fraction + d.exponent;
    if d.negative {
      assert Text(d) == [MINUS] + body;
    } else {
      assert Text(d) == body;
    }
    hide Text;
    assert [MINUS] + body + rest == [MINUS] + (body + rest);
  }

  lemma NumberParsed(d: Doc, rest: text)
    requires d.Number? && Valid(d) && Stops(rest)
    ensures ParseValue(Text(d) + rest) == Some((Meaning(d), rest))
  {
    NumberScanned(d, rest);
    WholeStarts(d.whole);
    hide *;
    var number := NumberText(d, rest);
    var t := Text(d) + rest;
    ParseNumber(t);
    if d.negative {
      assert t[1..] == number && t[0] == MINUS && t[1] == number[0];
    }
  }

  lemma WholeScanned(negative: bool, whole: seq<ascii>, rest: text)
    requires IsWhole(whole) && Stops(rest)
    ensures ScanNumber(negative, whole + rest)
         == Some((Int(if negative then -(DigitsValue(whole) as int) else DigitsValue(whole)), rest))
  {
    ScanWhole(whole, rest);
    NothingAfterInt(rest);
    hide ScanDigits, ScanFraction, ScanExponent, IsWhole, DigitsValue;
  }

  lemma WordParsed(v: Json, rest: text)
    requires IsWord(v)
    ensures ParseValue(Dumps(v) + rest) == Some((v, rest))
  {
    match v
    case Float(lexeme) => ParseWord(lexeme, rest);
    case _ => ParseKeyword(v, rest);
  }

  lemma TextStart(d: Doc)
    requires Valid(d)
    ensures Text(d) != [] && !IsWhite(Text(d)[0]) && Text(d)[0] != CLOSE_ARRAY && Text(d)[0] != CLOSE_OBJECT
  {
    match d
    case Word(v) =>
      assert Ascii("null")[0] == 'n' as int && Ascii("true")[0] == 't' as int && Ascii("false")[0] == 'f' as int;
      assert Ascii("NaN")[0] == 'N' as int && Ascii("Infinity")[0] == 'I' as int && Ascii("-Infinity")[0] == MINUS;
    case Number(negative, whole, fraction, exponent) => WholeStarts(whole);
    case _ =>
  }

  // ---- one level of the reader, and of the grammar ----

  lemma ArrayUnfold(t: text)
    requires t != [] && t[0] == OPEN_ARRAY
    ensures var inside := SkipWhite(t[1..]);
      ParseValue(t)
      == if inside != [] && inside[0] == CLOSE_ARRAY then Some((Arr([]), inside[1..]))
         else match ParseItems(inside)
           case None => None
           case Some((items, rest)) => Some((Arr(items), rest))
  {
    hide ParseItems, SkipWhite;
  }

  lemma ObjectUnfold(t: text)
    requires t != [] && t[0] == OPEN_OBJECT
    ensures var inside := SkipWhite(t[1..]);
      ParseValue(t)
      == if inside != [] && inside[0] == CLOSE_OBJECT then Some((Obj(map[]), inside[1..])) else ParseMembers(inside, map[])
  {
    hide ParseMembers, SkipWhite;
  }

  lemma MembersUnfold(t: text, fields: map<text, Json>)
    ensures ParseMembers(t, fields)
         == if t == [] || t[0] != QUOTE then None
            else match ScanString(t[1..])
              case None => None
              case Some((key, afterKey)) =>
                var colon := SkipWhite(afterKey);
                if colon == [] || colon[0] != COLON then None
                else match ParseValue(SkipWhite(colon[1..]))
                  case None => None
                  case Some((v, afterValue)) =>
                    var rest := SkipWhite(afterValue);
                    var fields' := fields[key := v];
                    if rest == [] then None
                    else if rest[0] == CLOSE_OBJECT then Some((Obj(fields'), rest[1..]))
                    else if rest[0] != COMMA then None
                    else ParseMembers(SkipWhite(rest[1..]), fields')
  {
    hide ScanString, SkipWhite, ParseValue;
  }

  lemma ItemsUnfoldParse(t: text)
    ensures ParseItems(t)
         == match ParseValue(t)
            case None => None
            case Some((v, afterValue)) =>
              var rest := SkipWhite(afterValue);
              if rest == [] then None
              else if rest[0] == CLOSE_ARRAY then Some(([v], rest[1..]))
              else if rest[0] != COMMA then None
              else match ParseItems(SkipWhite(rest[1..]))
                case None => None
                case Some((vs, end)) => Some(([v] + vs, end))
  {
    hide SkipWhite, ParseValue;
  }

  lemma ItemAlone(i: Item, white: text)
    requires ValidItem(i) && White(white)
    ensures ValidItem(i.(before := white)) && Valid(i.value) && White(i.before) && White(i.after)
  {
    hide White, Valid;
  }

  lemma EntryParts(e: Entry)
    requires ValidEntry(e)
    ensures AllPieces(e.key) && Valid(e.value) && White(e.before) && White(e.gap) && White(e.lead) && White(e.after)
  {
    hide AllPieces, Valid, White;
  }

  lemma MeaningsUnfold(items: seq<Item>)
    requires items != [] && forall i :: 0 <= i < |items| ==> ValidItem(items[i])
    ensures Valid(items[0].value) && Meanings(items) == [Meaning(items[0].value)] + Meanings(items[1..])
    ensures Meanings([]) == []
  {
    assert ValidItem(items[0]);
    hide Meaning, Valid, White;
  }

  lemma FieldsUnfold(members: seq<Entry>, fields: map<text, Json>)
    requires members != [] && forall i :: 0 <= i < |members| ==> ValidEntry(members[i])
    ensures AllPieces(members[0].key) && Valid(members[0].value)
    ensures Fields(members, fields) == Fields(members[1..], fields[Chars(members[0].key) := Meaning(members[0].value)])
    ensures Fields([], fields) == fields
  {
    assert ValidEntry(members[0]);
    hide Meaning, Valid, White, Chars, AllPieces;
  }

  // ---- every document is read as what it means ----

  lemma {:induction false} DocParsed(d: Doc, rest: text)
    requires Valid(d) && (d.Number? ==> Stops(rest))
    ensures ParseValue(Text(d) + rest) == Some((Meaning(d), rest))
    decreases d, 1
  {
    match d
    case Word(v) => WordParsed(v, rest);
    case Number(_, _, _, _) => NumberParsed(d, rest);
    case Quoted(pieces) => QuotedParsed(pieces, rest);
    case List(white, items) => ListParsed(white, items, rest);
    case Dict(white, members) => DictParsed(white, members, rest);
  }

  lemma QuotedParsed(pieces: seq<Piece>, rest: text)
    requires AllPieces(pieces)
    ensures ParseValue(Text(Quoted(pieces)) + rest) == Some((Str(Chars(pieces)), rest))
  {
    hide ScanString, Spelled, Chars, AllPieces;
    var close := [QUOTE] + rest;
    SpelledScanned(pieces, close);
    var t := Text(Quoted(pieces)) + rest;
    assert t[0] == QUOTE && t[1..] == Spelled(pieces) + close && close[1..] == rest;
  }

  lemma {:induction false} ListParsed(white: text, items: seq<Item>, rest: text)
    requires Valid(List(white, items))
    ensures ParseValue(Text(List(white, items)) + rest) == Some((Meaning(List(white, items)), rest))
    decreases items, 1
  {
    ListParts(white, items, rest);
    hide *;
    var close := [CLOSE_ARRAY] + rest;
    var t := Text(List(white, items)) + rest;
    ArrayUnfold(t);
    if items == [] {
      SkipsTo(white, close);
    } else {
      ItemsParsed(items, rest);
      ItemsStart(items, close);
    }
  }

  lemma ListParts(white: text, items: seq<Item>, rest: text)
    requires Valid(List(white, items))
    ensures var close := [CLOSE_ARRAY] + rest;
      var t := Text(List(white, items)) + rest;
      && t != [] && t[0] == OPEN_ARRAY && t[1..] == (if items == [] then white else ItemsText(items)) + close
      && !IsWhite(close[0]) && close[1..] == rest
    ensures White(white) && forall i :: 0 <= i < |items| ==> ValidItem(items[i])
    ensures Meaning(List(white, items)) == Arr(Meanings(items)) && Meanings([]) == []
  {
    hide ItemsText, ValidItem, White;
    var inside := if items == [] then white else ItemsText(items);
    var close: text := [CLOSE_ARRAY] + rest;
    assert Text(List(white, items)) == [OPEN_ARRAY] + inside + [CLOSE_ARRAY];
    Bracketed([OPEN_ARRAY], inside, [CLOSE_ARRAY], rest);
    assert close[1..] == rest;
  }

  lemma Bracketed(open: text, inside: text, close: text, rest: text)
    requires |open| == 1
    ensures var t := open + inside + close + rest; t != [] && t[0] == open[0] && t[1..] == inside + (close + rest)
  {
    hide *;
    SumAssociates(open, inside, close);
    SumAssociates(open, inside + close, rest);
    SumAssociates(inside, close, rest);
  }

  /** The items with white space in front of them skipped. */
  lemma ItemsStart(items: seq<Item>, close: text)
    requires items != [] && forall i :: 0 <= i < |items| ==> ValidItem(items[i])
    ensures var t := SkipWhite(ItemsText(items) + close);
      && t == Text(items[0].value) + (items[0].after + (if |items| == 1 then close else [COMMA] + (ItemsText(items[1..]) + close)))
      && t != [] && t[0] != CLOSE_ARRAY
  {
    var i := items[0];
    assert ValidItem(i);
    ItemAlone(i, i.before);
    assert White(i.before);
    hide *;
    TextStart(i.value);
    var more := if |items| == 1 then [] else [COMMA] + ItemsText(items[1..]);
    var v := Text(i.value) + (i.after + (more + close));
    ListUnfold(items);
    SumAssociates(i.before, Text(i.value) + (i.after + more), close);
    SumAssociates(Text(i.value), i.after + more, close);
    SumAssociates(i.after, more, close);
    assert [] + close == close;
    if |items| > 1 {
      SumAssociates([COMMA], ItemsText(items[1..]), close);
    }
    SkipsTo(i.before, v);
  }

  lemma {:induction false} ItemsParsed(items: seq<Item>, rest: text)
    requires items != [] && forall i :: 0 <= i < |items| ==> ValidItem(items[i])
    ensures ParseItems(SkipWhite(ItemsText(items) + ([CLOSE_ARRAY] + rest))) == Some((Meanings(items), rest))
    decreases items, 0
  {
    hide *;
    var close := [CLOSE_ARRAY] + rest;
    CloseBracket(rest);
    var i := items[0];
    MeaningsUnfold(items);
    ItemsStart(items, close);
    var behind := if |items| == 1 then close else [COMMA] + (ItemsText(items[1..]) + close);
    StopsBehind(i, behind);
    DocParsed(i.value, i.after + behind);
    OneItemParsed(i, behind);
    if |items| > 1 {
      ItemsParsed(items[1..], rest);
      CommaFirst(ItemsText(items[1..]) + close);
    } else {
      assert items[1..] == [] && [Meaning(i.value)] + [] == [Meaning(i.value)];
    }
  }

  lemma CloseBracket(rest: text)
    ensures ([CLOSE_ARRAY] + rest)[1..] == rest && ([CLOSE_OBJECT] + rest)[1..] == rest
    ensures ([CLOSE_ARRAY] + rest)[0] == CLOSE_ARRAY && ([CLOSE_OBJECT] + rest)[0] == CLOSE_OBJECT
  {
  }

  lemma CommaFirst(rest: text)
    ensures ([COMMA] + rest)[1..] == rest && ([COMMA] + rest)[0] == COMMA
    ensures COMMA != CLOSE_ARRAY && COMMA != CLOSE_OBJECT
  {
  }

  lemma OneItemParsed(i: Item, behind: text)
    requires ValidItem(i) && behind != [] && !IsWhite(behind[0])
    requires ParseValue(Text(i.value) + (i.after + behind)) == Some((Meaning(i.value), i.after + behind))
    ensures ParseItems(Text(i.value) + (i.after + behind))
         == if behind[0] == CLOSE_ARRAY then Some(([Meaning(i.value)], behind[1..]))
            else if behind[0] != COMMA then None
            else match ParseItems(SkipWhite(behind[1..]))
              case None => None
              case Some((vs, end)) => Some(([Meaning(i.value)] + vs, end))
  {
    ItemAlone(i, i.before);
    hide *;
    ItemsUnfoldParse(Text(i.value) + (i.after + behind));
    SkipsTo(i.after, behind);
  }

  lemma StopsBehind(i: Item, behind: text)
    requires ValidItem(i) && behind != []
    requires behind[0] == COMMA || behind[0] == CLOSE_ARRAY
    ensures Stops(i.after + behind) && !IsWhite(behind[0]) && Valid(i.value)
  {
    hide Valid;
    AfterStops(i.after, behind);
  }

  lemma AfterStops(after: text, behind: text)
    requires White(after) && behind != []
    requires behind[0] == COMMA || behind[0] == CLOSE_ARRAY || behind[0] == CLOSE_OBJECT
    ensures Stops(after + behind) && !IsWhite(behind[0])
  {
    assert after == [] ==> (after + behind)[0] == behind[0];
    assert after != [] ==> (after + behind)[0] == after[0];
  }

  lemma {:induction false} DictParsed(white: text, members: seq<Entry>, rest: text)
    requires Valid(Dict(white, members))
    ensures ParseValue(Text(Dict(white, members)) + rest) == Some((Meaning(Dict(white, members)), rest))
    decreases members, 1
  {
    DictParts(white, members, rest);
    hide *;
    var close := [CLOSE_OBJECT] + rest;
    var t := Text(Dict(white, members)) + rest;
    ObjectUnfold(t);
    if members == [] {
      SkipsTo(white, close);
    } else {
      EntriesParsed(members, map[], rest);
      EntriesStart(members, close);
    }
  }

  lemma DictParts(white: text, members: seq<Entry>, rest: text)
    requires Valid(Dict(white, members))
    ensures var close := [CLOSE_OBJECT] + rest;
      var t := Text(Dict(white, members)) + rest;
      && t != [] && t[0] == OPEN_OBJECT && t[1..] == (if members == [] then white else EntriesText(members)) + close
      && !IsWhite(close[0]) && close[1..] == rest
    ensures White(white) && forall i :: 0 <= i < |members| ==> ValidEntry(members[i])
    ensures Meaning(Dict(white, members)) == Obj(Fields(members, map[])) && Fields([], map[]) == map[]
  {
    hide EntriesText, ValidEntry, White;
    var inside := if members == [] then white else EntriesText(members);
    var close: text := [CLOSE_OBJECT] + rest;
    assert Text(Dict(white, members)) == [OPEN_OBJECT] + inside + [CLOSE_OBJECT];
    Bracketed([OPEN_OBJECT], inside, [CLOSE_OBJECT], rest);
    assert close[1..] == rest;
  }

  /** What stands behind the opening quote of an entry's key. */
  function Inside(e: Entry, behind: text): text {
    Spelled(e.key) + ([QUOTE] + (e.gap + ([COLON] + (e.lead + (Text(e.value) + (e.after + behind))))))
  }

  lemma EntriesStart(members: seq<Entry>, close: text)
    requires members != [] && forall i :: 0 <= i < |members| ==> ValidEntry(members[i])
    ensures var behind := if |members| == 1 then close else [COMMA] + (EntriesText(members[1..]) + close);
      SkipWhite(EntriesText(members) + close) == [QUOTE] + Inside(members[0], behind)
  {
    var e := members[0];
    assert ValidEntry(e);
    assert White(e.before);
    hide *;
    var more := if |members| == 1 then [] else [COMMA] + EntriesText(members[1..]);
    EntriesUnfold(members);
    SumAssociates(e.before, EntryText(e) + more, close);
    SumAssociates(EntryText(e), more, close);
    EntryInside(e, more + close);
    assert [] + close == close;
    if |members| > 1 {
      SumAssociates([COMMA], EntriesText(members[1..]), close);
    }
    SkipsTo(e.before, [QUOTE] + Inside(e, more + close));
  }

  lemma EntryRegrouped(e: Entry, more: text, close: text)
    ensures e.before + ([QUOTE] + Spelled(e.key) + [QUOTE]) + e.gap + [COLON] + e.lead + Text(e.value) + e.after + more + close
         == e.before + ([QUOTE] + Inside(e, more + close))
  {
    hide Spelled, Text;
    var a := e.after + (more + close);
    var b := Text(e.value) + a;
    var c := e.lead + b;
    var d := [COLON] + c;
    var f := e.gap + d;
    assert e.before + ([QUOTE] + Spelled(e.key) + [QUOTE]) + e.gap + [COLON] + e.lead + Text(e.value) + e.after + more + close
        == e.before + ([QUOTE] + (Spelled(e.key) + ([QUOTE] + f)));
  }

  lemma {:induction false} EntriesParsed(members: seq<Entry>, fields: map<text, Json>, rest: text)
    requires members != [] && forall i :: 0 <= i < |members| ==> ValidEntry(members[i])
    ensures ParseMembers(SkipWhite(EntriesText(members) + ([CLOSE_OBJECT] + rest)), fields)
         == Some((Obj(Fields(members, fields)), rest))
    decreases members, 0
  {
    hide *;
    var close := [CLOSE_OBJECT] + rest;
    CloseBracket(rest);
    var e := members[0];
    FieldsUnfold(members, fields);
    EntriesStart(members, close);
    var behind := if |members| == 1 then close else [COMMA] + (EntriesText(members[1..]) + close);
    EntryParts(e);
    AfterStops(e.after, behind);
    DocParsed(e.value, e.after + behind);
    OneEntryParsed(e, behind, fields);
    if |members| > 1 {
      EntriesParsed(members[1..], fields[Chars(e.key) := Meaning(e.value)], rest);
      CommaFirst(EntriesText(members[1..]) + close);
    } else {
      FieldsNone(fields[Chars(e.key) := Meaning(e.value)]);
      assert members[1..] == [];
    }
  }

  lemma FieldsNone(fields: map<text, Json>)
    ensures Fields([], fields) == fields
  {
  }

  lemma OneEntryParsed(e: Entry, behind: text, fields: map<text, Json>)
    requires ValidEntry(e) && behind != [] && !IsWhite(behind[0])
    requires ParseValue(Text(e.value) + (e.after + behind)) == Some((Meaning(e.value), e.after + behind))
    ensures ParseMembers([QUOTE] + Inside(e, behind), fields)
         == (var fields' := fields[Chars(e.key) := Meaning(e.value)];
             if behind[0] == CLOSE_OBJECT then Some((Obj(fields'), behind[1..]))
             else if behind[0] != COMMA then None
             else ParseMembers(SkipWhite(behind[1..]), fields'))
  {
    EntryParts(e);
    hide *;
    TextStart(e.value);
    var a := e.after + behind;
    var b := Text(e.value) + a;
    var c := [COLON] + (e.lead + b);
    MembersUnfold([QUOTE] + Inside(e, behind), fields);
    KeyTaken(e, behind);
    ColonFirst(e.lead + b);
    assert b[0] == Text(e.value)[0];
    SkipsTo(e.gap, c);
    SkipsTo(e.lead, b);
    SkipsTo(e.after, behind);
  }

  lemma ColonFirst(rest: text)
    ensures ([COLON] + rest)[0] == COLON && ([COLON] + rest)[1..] == rest && !IsWhite(COLON)
  {
  }

  lemma KeyTaken(e: Entry, behind: text)
    requires AllPieces(e.key)
    ensures var t := [QUOTE] + Inside(e, behind);
      && t[0] == QUOTE
      && ScanString(t[1..])
         == Some((Chars(e.key), e.gap + ([COLON] + (e.lead + (Text(e.value) + (e.after + behind))))))
  {
    InsideParts(e, behind);
    hide *;
    var rest := e.gap + ([COLON] + (e.lead + (Text(e.value) + (e.after + behind))));
    assert ([QUOTE] + rest)[0] == QUOTE && ([QUOTE] + rest)[1..] == rest;
    SpelledScanned(e.key, [QUOTE] + rest);
  }

  lemma InsideParts(e: Entry, behind: text)
    ensures var t := [QUOTE] + Inside(e, behind);
      t[0] == QUOTE
      && t[1..] == Spelled(e.key) + ([QUOTE] + (e.gap + ([COLON] + (e.lead + (Text(e.value) + (e.after + behind))))))
  {
    hide Spelled, Text;
  }

  // ---- and nothing else is accepted ----

  lemma FractionRead(t: text)
    ensures var (f, rest) := ScanFraction(t); IsFraction(f) && t == f + rest
  {
    if t != [] && t[0] == '.' as int {
      var (ds, rest) := ScanDigits(t[1..]);
      assert t == [t[0]] + t[1..];
      if ds != [] {
        assert ([t[0]] + ds)[1..] == ds;
      }
    }
  }

  lemma ExponentRead(t: text)
    ensures var (e, rest) := ScanExponent(t); IsExponent(e) && t == e + rest
  {
    if t != [] && (t[0] == 'e' as int || t[0] == 'E' as int) {
      var signed := |t| > 1 && (t[1] == MINUS || t[1] == '+' as int);
      var sign: seq<ascii> := if signed then [t[1]] else [];
      var (ds, rest) := ScanDigits(t[1 + |sign|..]);
      if ds != [] {
        var e: seq<ascii> := [t[0]] + sign + ds;
        assert t == [t[0]] + sign + t[1 + |sign|..];
        assert e[1 + |sign|..] == ds;
        assert signed ==> e[1] == t[1];
      }
    }
  }

  lemma WholeRead(t: text)
    requires t != [] && IsDigit(t[0])
    ensures var (ds, rest) := if t[0] == '0' as int then ([t[0]], t[1..]) else ScanDigits(t);
      IsWhole(ds) && t == ds + rest
  {
    assert t == [t[0]] + t[1..];
    if t[0] != '0' as int {
      var (ds, rest) := ScanDigits(t);
      assert ds == [t[0]] + ScanDigits(t[1..]).0;
    }
  }

  lemma NumberTaken(negative: bool, t: text) returns (ds: seq<ascii>, fraction: seq<ascii>, exponent: seq<ascii>, after: text)
    requires ScanNumber(negative, t).Some?
    ensures IsWhole(ds) && IsFraction(fraction) && IsExponent(exponent) && t == ds + (fraction + (exponent + after))
    ensures ScanNumber(negative, t)
         == Some((if fraction == [] && exponent == [] then Int(if negative then -(DigitsValue(ds) as int) else DigitsValue(ds))
                  else Float(Sign(negative) + ds + fraction + exponent), after))
  {
    var (whole, rest) := if t[0] == '0' as int then ([t[0]], t[1..]) else ScanDigits(t);
    var (f, afterFraction) := ScanFraction(rest);
    var (e, afterExponent) := ScanExponent(afterFraction);
    ds, fraction, exponent, after := whole, f, e, afterExponent;
    WholeRead(t);
    FractionRead(rest);
    ExponentRead(afterFraction);
    hide ScanDigits, ScanFraction, ScanExponent, IsWhole, IsFraction, IsExponent, DigitsValue;
    assert fraction == [] && exponent == [] ==> after == rest;
  }

  lemma NumberRead(negative: bool, t: text) returns (d: Doc)
    requires ScanNumber(negative, t).Some?
    ensures d.Number? && d.negative == negative && Valid(d)
    ensures var (v, rest) := ScanNumber(negative, t).value;
      t == d.whole + d.fraction + d.exponent + rest && v == Meaning(d)
  {
    var ds, fraction, exponent, after := NumberTaken(negative, t);
    d := NewNumber(negative, ds, fraction, exponent);
    hide *;
    FourParts(ds, fraction, exponent, after);
  }

  lemma NewNumber(negative: bool, ds: seq<ascii>, fraction: seq<ascii>, exponent: seq<ascii>) returns (d: Doc)
    requires IsWhole(ds) && IsFraction(fraction) && IsExponent(exponent)
    ensures d == Number(negative, ds, fraction, exponent) && Valid(d)
    ensures Meaning(d)
         == if fraction == [] && exponent == [] then Int(if negative then -(DigitsValue(ds) as int) else DigitsValue(ds))
            else Float(Sign(negative) + ds + fraction + exponent)
  {
    d := Number(negative, ds, fraction, exponent);
    hide IsWhole, IsFraction, IsExponent, DigitsValue, Sign;
  }

  lemma WordRead(t: text)
    requires ScanKeyword(t).Some?
    ensures var (v, rest) := ScanKeyword(t).value; IsWord(v) && t == Dumps(v) + rest
  {
    var (v, rest) := ScanKeyword(t).value;
    var n := |t| - |rest|;
    assert t == t[..n] + t[n..];
  }

  lemma QuotedRead(t: text) returns (d: Doc)
    requires t != [] && t[0] == QUOTE && ParseValue(t).Some?
    ensures var (v, rest) := ParseValue(t).value; Valid(d) && t == Text(d) + rest && v == Meaning(d)
  {
    var (s, rest) := ScanString(t[1..]).value;
    QuotedUnfold(t);
    var ps := StringRead(t[1..]);
    d := Quoted(ps);
    assert Text(d) == [QUOTE] + Spelled(ps) + [QUOTE];
    hide *;
    HeadTail(t);
    FourParts([QUOTE], Spelled(ps), [QUOTE], rest);
  }

  lemma QuotedUnfold(t: text)
    requires t != [] && t[0] == QUOTE
    ensures ParseValue(t) == match ScanString(t[1..])
                             case None => None
                             case Some((s, rest)) => Some((Str(s), rest))
  {
    hide ScanString;
  }

  lemma PlainRead(t: text) returns (d: Doc)
    requires t != [] && t[0] != QUOTE && t[0] != OPEN_ARRAY && t[0] != OPEN_OBJECT && ParseValue(t).Some?
    ensures var (v, rest) := ParseValue(t).value; Valid(d) && t == Text(d) + rest && v == Meaning(d)
  {
    hide ScanNumber, ScanKeyword, IsWord, Meaning, IsWhole, IsFraction, IsExponent;
    var (v, rest) := ParseValue(t).value;
    if IsDigit(t[0]) {
      d := NumberRead(false, t);
      assert Text(d) + rest == t;
    } else if t[0] == MINUS && |t| > 1 && IsDigit(t[1]) {
      d := NumberRead(true, t[1..]);
      assert t == [MINUS] + t[1..];
      assert Text(d) + rest == [MINUS] + (d.whole + d.fraction + d.exponent + rest);
    } else {
      WordRead(t);
      d := Word(v);
      WordMeaning(v);
    }
  }

  lemma WordMeaning(v: Json)
    requires IsWord(v)
    ensures Meaning(Word(v)) == v && Text(Word(v)) == Dumps(v)
  {
  }

  /** Whatever is accepted as a value is a document that means it. */
  lemma {:induction false} DocRead(t: text) returns (d: Doc)
    requires ParseValue(t).Some?
    ensures var (v, rest) := ParseValue(t).value; Valid(d) && t == Text(d) + rest && v == Meaning(d)
    decreases |t|, 3
  {
    if t[0] == QUOTE {
      d := QuotedRead(t);
    } else if t[0] == OPEN_OBJECT {
      d := DictRead(t);
    } else if t[0] == OPEN_ARRAY {
      d := ListRead(t);
    } else {
      d := PlainRead(t);
    }
  }

  lemma Opened(t: text) returns (white: text)
    requires t != []
    ensures White(white) && t == [t[0]] + (white + SkipWhite(t[1..]))
  {
    hide *;
    white := SkippedWhite(t[1..]);
    HeadTail(t);
  }

  lemma {:induction false} ListRead(t: text) returns (d: Doc)
    requires t != [] && t[0] == OPEN_ARRAY && ParseValue(t).Some?
    ensures var (v, rest) := ParseValue(t).value; Valid(d) && t == Text(d) + rest && v == Meaning(d)
    decreases |t|, 2
  {
    hide *;
    ArrayUnfold(t);
    var white := Opened(t);
    var inside := SkipWhite(t[1..]);
    if inside != [] && inside[0] == CLOSE_ARRAY {
      HeadTail(inside);
      d := EmptyList(t, white, inside[1..]);
    } else {
      var items := ItemsRead(inside);
      d := MovedList(t, white, items, ParseItems(inside).value.1);
    }
  }

  lemma MovedList(t: text, white: text, items: seq<Item>, rest: text) returns (d: Doc)
    requires items != [] && items[0].before == [] && White(white)
    requires forall i :: 0 <= i < |items| ==> ValidItem(items[i])
    requires t == [OPEN_ARRAY] + (white + (ItemsText(items) + ([CLOSE_ARRAY] + rest)))
    ensures Valid(d) && t == Text(d) + rest && Meaning(d) == Arr(Meanings(items))
  {
    hide *;
    ItemMoved(items, white);
    d := SomeList([items[0].(before := white)] + items[1..]);
    ListRegrouped(t, [OPEN_ARRAY], white, ItemsText(items), [CLOSE_ARRAY], rest);
  }

  lemma ListRegrouped(t: text, open: text, white: text, items: text, close: text, rest: text)
    requires t == open + (white + (items + (close + rest)))
    ensures t == open + (white + items) + close + rest
  {
    hide *;
    SumAssociates(white, items, close + rest);
    SumAssociates(open, white + items, close + rest);
    SumAssociates(open + (white + items), close, rest);
  }

  lemma EmptyList(t: text, white: text, rest: text) returns (d: Doc)
    requires White(white) && t == [OPEN_ARRAY] + (white + ([CLOSE_ARRAY] + rest))
    ensures Valid(d) && t == Text(d) + rest && Meaning(d) == Arr([])
  {
    d := List(white, []);
    assert Text(d) == [OPEN_ARRAY] + white + [CLOSE_ARRAY];
    hide *;
    SumAssociates([OPEN_ARRAY], white, [CLOSE_ARRAY] + rest);
    SumAssociates([OPEN_ARRAY] + white, [CLOSE_ARRAY], rest);
  }

  lemma SomeList(items: seq<Item>) returns (d: Doc)
    requires items != [] && forall i :: 0 <= i < |items| ==> ValidItem(items[i])
    ensures Valid(d) && Text(d) == [OPEN_ARRAY] + ItemsText(items) + [CLOSE_ARRAY] && Meaning(d) == Arr(Meanings(items))
  {
    d := List([], items);
    hide ValidItem;
  }

  /** White space in front of the first item may count as part of it. */
  lemma ItemMoved(items: seq<Item>, white: text)
    requires items != [] && items[0].before == [] && White(white)
    requires forall i :: 0 <= i < |items| ==> ValidItem(items[i])
    ensures var moved := [items[0].(before := white)] + items[1..];
      && (forall i :: 0 <= i < |moved| ==> ValidItem(moved[i]))
      && ItemsText(moved) == white + ItemsText(items) && Meanings(moved) == Meanings(items)
  {
    var moved := [items[0].(before := white)] + items[1..];
    assert moved[0] == items[0].(before := white) && moved[1..] == items[1..];
    ItemAlone(items[0], white);
    hide *;
    forall i | 0 <= i < |moved|
      ensures ValidItem(moved[i])
    {
      assert i > 0 ==> moved[i] == items[i];
    }
    ListUnfold(items);
    ListUnfold(moved);
    MeaningsUnfold(items);
    MeaningsUnfold(moved);
    var tail := Text(items[0].value) + (items[0].after + (if |items| == 1 then [] else [COMMA] + ItemsText(items[1..])));
    assert [] + tail == tail;
  }

  lemma ListUnfold(items: seq<Item>)
    requires items != []
    ensures ItemsText(items)
         == items[0].before
            + (Text(items[0].value) + (items[0].after + (if |items| == 1 then [] else [COMMA] + ItemsText(items[1..]))))
  {
    hide *;
    var more := if |items| == 1 then [] else [COMMA] + ItemsText(items[1..]);
    var i := items[0];
    ItemsFlat(items, more);
    FourParts(i.before, Text(i.value), i.after, more);
  }

  lemma FourParts(a: text, b: text, c: text, d: text)
    ensures a + b + c + d == a + (b + (c + d))
  {
    hide *;
    SumAssociates(a + b, c, d);
    SumAssociates(a, b, c + d);
  }

  lemma ItemsFlat(items: seq<Item>, more: text)
    requires items != [] && more == if |items| == 1 then [] else [COMMA] + ItemsText(items[1..])
    ensures ItemsText(items) == items[0].before + Text(items[0].value) + items[0].after + more
  {
    hide Text;
  }

  lemma {:induction false} ItemsRead(t: text) returns (items: seq<Item>)
    requires ParseItems(t).Some?
    ensures items != [] && items[0].before == [] && forall i :: 0 <= i < |items| ==> ValidItem(items[i])
    ensures var (vs, rest) := ParseItems(t).value;
      t == ItemsText(items) + ([CLOSE_ARRAY] + rest) && vs == Meanings(items)
    decreases |t|, 4
  {
    hide *;
    ItemsUnfoldParse(t);
    var (vs, rest) := ParseItems(t).value;
    var (v, afterValue) := ParseValue(t).value;
    var d := DocRead(t);
    var after := SkippedWhite(afterValue);
    var r := SkipWhite(afterValue);
    var first := Item([], d, after);
    NewItem(first);
    HeadTail(r);
    if r[0] == CLOSE_ARRAY {
      items := [first];
      LastItem(first);
      SumAssociates(Text(d), after, [CLOSE_ARRAY] + rest);
    } else {
      var white := Opened(r);
      var more := ItemsRead(SkipWhite(r[1..]));
      items := MoreItems(t, first, white, more, rest);
    }
  }

  lemma NewItem(i: Item)
    requires i.before == [] && Valid(i.value) && White(i.after)
    ensures ValidItem(i)
  {
    hide Valid;
  }

  lemma MoreItems(t: text, first: Item, white: text, more: seq<Item>, rest: text) returns (items: seq<Item>)
    requires ValidItem(first) && first.before == [] && White(white)
    requires more != [] && more[0].before == [] && forall i :: 0 <= i < |more| ==> ValidItem(more[i])
    requires t == Text(first.value) + (first.after + ([COMMA] + (white + (ItemsText(more) + ([CLOSE_ARRAY] + rest)))))
    ensures items != [] && items[0].before == [] && forall i :: 0 <= i < |items| ==> ValidItem(items[i])
    ensures Valid(first.value) && t == ItemsText(items) + ([CLOSE_ARRAY] + rest)
    ensures Meanings(items) == [Meaning(first.value)] + Meanings(more)
  {
    var moved := [more[0].(before := white)] + more[1..];
    items := [first] + moved;
    assert items[0] == first;
    ItemAlone(first, []) by {
      assert White([]);
    }
    hide *;
    ItemMoved(more, white);
    FirstItem(first, moved);
    ItemsRegrouped(t, Text(first.value), first.after, white, ItemsText(more), [CLOSE_ARRAY] + rest);
  }

  lemma ItemsRegrouped(t: text, v: text, after: text, lead: text, more: text, close: text)
    requires t == v + (after + ([COMMA] + (lead + (more + close))))
    ensures t == (v + after + [COMMA] + (lead + more)) + close
  {
    hide *;
    SumAssociates(lead, more, close);
    SumAssociates([COMMA], lead + more, close);
    SumAssociates(after, [COMMA] + (lead + more), close);
    SumAssociates(v, after + ([COMMA] + (lead + more)), close);
    SumAssociates(after, [COMMA], lead + more);
    SumAssociates(v, after + [COMMA], lead + more);
    SumAssociates(v, after, [COMMA]);
  }

  lemma LastItem(i: Item)
    requires ValidItem(i) && i.before == []
    ensures ItemsText([i]) == Text(i.value) + i.after && Meanings([i]) == [Meaning(i.value)]
  {
    hide Text, Meaning, Valid, White;
    assert [i][1..] == [] && [Meaning(i.value)] + [] == [Meaning(i.value)];
  }

  lemma FirstItem(i: Item, more: seq<Item>)
    requires more != [] && ValidItem(i) && i.before == [] && forall k :: 0 <= k < |more| ==> ValidItem(more[k])
    ensures forall k :: 0 <= k < |[i] + more| ==> ValidItem(([i] + more)[k])
    ensures ItemsText([i] + more) == Text(i.value) + i.after + [COMMA] + ItemsText(more)
    ensures Meanings([i] + more) == [Meaning(i.value)] + Meanings(more)
  {
    hide Text, Meaning, Valid, White;
    assert ([i] + more)[1..] == more;
  }

  lemma {:induction false} DictRead(t: text) returns (d: Doc)
    requires t != [] && t[0] == OPEN_OBJECT && ParseValue(t).Some?
    ensures var (v, rest) := ParseValue(t).value; Valid(d) && t == Text(d) + rest && v == Meaning(d)
    decreases |t|, 2
  {
    hide *;
    ObjectUnfold(t);
    var white := Opened(t);
    var inside := SkipWhite(t[1..]);
    if inside != [] && inside[0] == CLOSE_OBJECT {
      HeadTail(inside);
      d := EmptyDict(t, white, inside[1..]);
    } else {
      var members := EntriesRead(inside, map[]);
      d := MovedDict(t, white, members, ParseMembers(inside, map[]).value.1);
    }
  }

  lemma MovedDict(t: text, white: text, members: seq<Entry>, rest: text) returns (d: Doc)
    requires members != [] && members[0].before == [] && White(white)
    requires forall i :: 0 <= i < |members| ==> ValidEntry(members[i])
    requires t == [OPEN_OBJECT] + (white + (EntriesText(members) + ([CLOSE_OBJECT] + rest)))
    ensures Valid(d) && t == Text(d) + rest && Meaning(d) == Obj(Fields(members, map[]))
  {
    hide *;
    EntryMoved(members, white, map[]);
    d := SomeDict([members[0].(before := white)] + members[1..]);
    ListRegrouped(t, [OPEN_OBJECT], white, EntriesText(members), [CLOSE_OBJECT], rest);
  }

  lemma EmptyDict(t: text, white: text, rest: text) returns (d: Doc)
    requires White(white) && t == [OPEN_OBJECT] + (white + ([CLOSE_OBJECT] + rest))
    ensures Valid(d) && t == Text(d) + rest && Meaning(d) == Obj(map[])
  {
    d := Dict(white, []);
    assert Text(d) == [OPEN_OBJECT] + white + [CLOSE_OBJECT];
    hide *;
    SumAssociates([OPEN_OBJECT], white, [CLOSE_OBJECT] + rest);
    SumAssociates([OPEN_OBJECT] + white, [CLOSE_OBJECT], rest);
  }

  lemma SomeDict(members: seq<Entry>) returns (d: Doc)
    requires members != [] && forall i :: 0 <= i < |members| ==> ValidEntry(members[i])
    ensures Valid(d) && Text(d) == [OPEN_OBJECT] + EntriesText(members) + [CLOSE_OBJECT]
    ensures Meaning(d) == Obj(Fields(members, map[]))
  {
    d := Dict([], members);
    hide ValidEntry;
  }

  /** An entry behind the white space in front of it. */
  function EntryText(e: Entry): text {
    ([QUOTE] + Spelled(e.key) + [QUOTE]) + e.gap + [COLON] + e.lead + Text(e.value) + e.after
  }

  lemma EntryInside(e: Entry, more: text)
    ensures EntryText(e) + more == [QUOTE] + Inside(e, more)
  {
    hide Spelled, Text;
    EntryRegrouped(e.(before := []), [], more);
    assert [] + more == more;
    assert [] + ([QUOTE] + Spelled(e.key) + [QUOTE]) + e.gap + [COLON] + e.lead + Text(e.value) + e.after + [] == EntryText(e);
  }

  lemma EntriesUnfold(members: seq<Entry>)
    requires members != []
    ensures EntriesText(members)
         == members[0].before + (EntryText(members[0]) + (if |members| == 1 then [] else [COMMA] + EntriesText(members[1..])))
  {
    hide *;
    var more := if |members| == 1 then [] else [COMMA] + EntriesText(members[1..]);
    var e := members[0];
    EntriesFlat(members, more);
    EntryTextParts(e);
    EightParts(e.before, [QUOTE] + Spelled(e.key) + [QUOTE], e.gap, [COLON], e.lead, Text(e.value), e.after, more);
  }

  lemma EntryTextParts(e: Entry)
    ensures EntryText(e) == ([QUOTE] + Spelled(e.key) + [QUOTE]) + e.gap + [COLON] + e.lead + Text(e.value) + e.after
  {
    hide Text, Spelled;
  }

  lemma EightParts(a: text, b: text, c: text, d: text, e: text, f: text, g: text, h: text)
    ensures a + b + c + d + e + f + g + h == a + ((b + c + d + e + f + g) + h)
  {
    hide *;
    SumAssociates(a, b, c);
    SumAssociates(a, b + c, d);
    SumAssociates(a, b + c + d, e);
    SumAssociates(a, b + c + d + e, f);
    SumAssociates(a, b + c + d + e + f, g);
    SumAssociates(a, b + c + d + e + f + g, h);
  }

  lemma EntriesFlat(members: seq<Entry>, more: text)
    requires members != [] && more == if |members| == 1 then [] else [COMMA] + EntriesText(members[1..])
    ensures var e := members[0];
      EntriesText(members)
      == e.before + ([QUOTE] + Spelled(e.key) + [QUOTE]) + e.gap + [COLON] + e.lead + Text(e.value) + e.after + more
  {
    hide Text, Spelled;
  }

  lemma EntryMoved(members: seq<Entry>, white: text, fields: map<text, Json>)
    requires members != [] && members[0].before == [] && White(white)
    requires forall i :: 0 <= i < |members| ==> ValidEntry(members[i])
    ensures var moved := [members[0].(before := white)] + members[1..];
      && (forall i :: 0 <= i < |moved| ==> ValidEntry(moved[i]))
      && EntriesText(moved) == white + EntriesText(members) && Fields(moved, fields) == Fields(members, fields)
  {
    var moved := [members[0].(before := white)] + members[1..];
    assert moved[0] == members[0].(before := white) && moved[1..] == members[1..];
    EntryAlone(members[0], white);
    hide *;
    forall i | 0 <= i < |moved|
      ensures ValidEntry(moved[i])
    {
      assert i > 0 ==> moved[i] == members[i];
    }
    EntriesUnfold(members);
    EntriesUnfold(moved);
    FieldsUnfold(members, fields);
    FieldsUnfold(moved, fields);
    var tail := EntryText(members[0]) + (if |members| == 1 then [] else [COMMA] + EntriesText(members[1..]));
    assert [] + tail == tail;
  }

  lemma EntryAlone(e: Entry, white: text)
    requires ValidEntry(e) && White(white)
    ensures ValidEntry(e.(before := white)) && EntryText(e.(before := white)) == EntryText(e)
  {
    hide Text, Spelled, White, Valid, AllPieces;
  }

  /** One entry and what follows it, as the reader takes them apart. */
  lemma {:induction false} EntryRead(t: text, fields: map<text, Json>) returns (e: Entry, behind: text)
    requires ParseMembers(t, fields).Some?
    ensures ValidEntry(e) && e.before == [] && t == EntryText(e) + behind && behind != [] && |behind| < |t|
    ensures var fields' := fields[Chars(e.key) := Meaning(e.value)];
      ParseMembers(t, fields)
      == if behind[0] == CLOSE_OBJECT then Some((Obj(fields'), behind[1..]))
         else if behind[0] != COMMA then None
         else ParseMembers(SkipWhite(behind[1..]), fields')
    decreases |t|, 1
  {
    hide *;
    MembersUnfold(t, fields);
    HeadTail(t);
    var (key, afterKey) := ScanString(t[1..]).value;
    var ps := StringRead(t[1..]);
    var gap := SkippedWhite(afterKey);
    var colon := SkipWhite(afterKey);
    var lead := Opened(colon);
    var inside := SkipWhite(colon[1..]);
    var d := DocRead(inside);
    var (v, afterValue) := ParseValue(inside).value;
    var after := SkippedWhite(afterValue);
    behind := SkipWhite(afterValue);
    e := Entry([], ps, gap, lead, d, after);
    NewEntry(e);
    EntryReassembled(t, e, behind);
  }

  lemma NewEntry(e: Entry)
    requires e.before == [] && AllPieces(e.key) && White(e.gap) && White(e.lead) && Valid(e.value) && White(e.after)
    ensures ValidEntry(e)
  {
    hide Valid, AllPieces;
  }

  lemma EntryReassembled(t: text, e: Entry, behind: text)
    requires t == [QUOTE] + (Spelled(e.key) + ([QUOTE] + (e.gap + ([COLON] + (e.lead + (Text(e.value) + (e.after + behind)))))))
    ensures t == EntryText(e) + behind
  {
    hide Spelled, Text;
    EntryRegrouped(e.(before := []), [], behind);
    assert [] + behind == behind;
  }

  lemma {:induction false} EntriesRead(t: text, fields: map<text, Json>) returns (members: seq<Entry>)
    requires ParseMembers(t, fields).Some?
    ensures members != [] && members[0].before == [] && forall i :: 0 <= i < |members| ==> ValidEntry(members[i])
    ensures var (v, rest) := ParseMembers(t, fields).value;
      t == EntriesText(members) + ([CLOSE_OBJECT] + rest) && v == Obj(Fields(members, fields))
    decreases |t|, 2
  {
    hide *;
    var e, behind := EntryRead(t, fields);
    HeadTail(behind);
    if behind[0] == CLOSE_OBJECT {
      members := [e];
      LastEntry(e, fields);
    } else {
      EntryParts(e);
      var fields' := fields[Chars(e.key) := Meaning(e.value)];
      var white := Opened(behind);
      var more := EntriesRead(SkipWhite(behind[1..]), fields');
      members := MoreEntries(t, e, behind, white, more, fields, ParseMembers(t, fields).value.1);
    }
  }

  lemma MoreEntries(t: text, e: Entry, behind: text, white: text, more: seq<Entry>, fields: map<text, Json>, rest: text)
    returns (members: seq<Entry>)
    requires ValidEntry(e) && e.before == [] && t == EntryText(e) + behind && White(white)
    requires more != [] && more[0].before == [] && forall i :: 0 <= i < |more| ==> ValidEntry(more[i])
    requires behind == [COMMA] + (white + (EntriesText(more) + ([CLOSE_OBJECT] + rest)))
    ensures members != [] && members[0].before == [] && forall i :: 0 <= i < |members| ==> ValidEntry(members[i])
    ensures t == EntriesText(members) + ([CLOSE_OBJECT] + rest)
    ensures Fields(members, fields) == Fields(more, fields[Chars(e.key) := Meaning(e.value)])
  {
    var moved := [more[0].(before := white)] + more[1..];
    members := [e] + moved;
    assert members[0] == e;
    hide *;
    EntryMoved(more, white, fields[Chars(e.key) := Meaning(e.value)]);
    FirstEntry(e, moved, fields);
    EntriesRegrouped(t, EntryText(e), white, EntriesText(more), [CLOSE_OBJECT] + rest);
  }

  lemma LastEntry(e: Entry, fields: map<text, Json>)
    requires ValidEntry(e) && e.before == []
    ensures EntriesText([e]) == EntryText(e)
    ensures Fields([e], fields) == fields[Chars(e.key) := Meaning(e.value)]
  {
    assert ValidEntry([e][0]) && [e][1..] == [];
    hide EntryText, EntriesText, Fields, ValidEntry;
    EntriesUnfold([e]);
    FieldsUnfold([e], fields);
    assert [] + (EntryText(e) + []) == EntryText(e);
  }

  lemma FirstEntry(e: Entry, more: seq<Entry>, fields: map<text, Json>)
    requires more != [] && ValidEntry(e) && e.before == [] && forall k :: 0 <= k < |more| ==> ValidEntry(more[k])
    ensures forall k :: 0 <= k < |[e] + more| ==> ValidEntry(([e] + more)[k])
    ensures EntriesText([e] + more) == EntryText(e) + ([COMMA] + EntriesText(more))
    ensures Fields([e] + more, fields) == Fields(more, fields[Chars(e.key) := Meaning(e.value)])
  {
    hide EntryText, EntriesText, Fields, ValidEntry;
    var all := [e] + more;
    assert all[0] == e && all[1..] == more;
    EntriesUnfold(all);
    FieldsUnfold(all, fields);
    assert [] + (EntryText(e) + ([COMMA] + EntriesText(more))) == EntryText(e) + ([COMMA] + EntriesText(more));
  }

  lemma EntriesRegrouped(t: text, e: text, white: text, more: text, close: text)
    requires t == e + ([COMMA] + (white + (more + close)))
    ensures t == (e + ([COMMA] + (white + more))) + close
  {
    hide *;
    SumAssociates(white, more, close);
    SumAssociates([COMMA], white + more, close);
    SumAssociates(e, [COMMA] + (white + more), close);
  }

  // ---- main result ----

  /** t is the text of d with white space around it. */
  ghost predicate Writes(t: text, d: Doc, before: text, after: text) {
    Valid(d) && White(before) && White(after) && t == before + Text(d) + after
  }

  /** `json.loads` accepts exactly the texts of the grammar, white space around them allowed, and reads each as
      what it means. */
  lemma LoadsExactly(t: text, v: Json)
    ensures ParseDocument(t) == Some(v) <==> exists d, before, after :: Writes(t, d, before, after) && Meaning(d) == v
  {
    if ParseDocument(t) == Some(v) {
      var d, before, after := DocumentRead(t);
      assert Writes(t, d, before, after);
    }
    if d, before, after :| Writes(t, d, before, after) && Meaning(d) == v {
      DocumentParsed(t, d, before, after);
    }
  }

  lemma DocumentParsed(t: text, d: Doc, before: text, after: text)
    requires Writes(t, d, before, after)
    ensures ParseDocument(t) == Some(Meaning(d))
  {
    TextStart(d);
    WhiteStops(after);
    DocParsed(d, after);
    hide ParseValue, Meaning, Text, Valid, White;
    assert t == before + (Text(d) + after);
    SkipsTo(before, Text(d) + after);
    SkipsTo(after, []);
    assert after + [] == after;
  }

  lemma WhiteStops(after: text)
    requires White(after)
    ensures Stops(after)
  {
  }

  lemma DocumentRead(t: text) returns (d: Doc, before: text, after: text)
    requires ParseDocument(t).Some?
    ensures Writes(t, d, before, after) && Meaning(d) == ParseDocument(t).value
  {
    hide ParseValue, Meaning, Text, Valid, White, SkipWhite;
    before := SkippedWhite(t);
    d := DocRead(SkipWhite(t));
    var (v, rest) := ParseValue(SkipWhite(t)).value;
    after := SkippedWhite(rest);
    assert rest == after + [] == after;
    assert t == before + Text(d) + after;
  }
}
