/** JSON as the code uses it: `json.dumps(v, sort_keys=True, separators=(",", ":"))` with ASCII
    escapes, and `json.loads` (RFC 8259, plus the NaN and Infinity that Python accepts). */
module Json {
  import opened Basics
  import opened Ordering
  import opened Hex
  import Utf8

  /** A value of Python's json module. A dict is a map, so the order of its keys is not part of it.
      A float is kept as the characters it is written with. */
  datatype Json =
    | Null
    | Bool(b: bool)
    | Int(n: int)
    | Float(lexeme: seq<ascii>)
    | Str(s: text)
    | Arr(items: seq<Json>)
    | Obj(fields: map<text, Json>)

  /** A dict display: entries in order, a repeated key keeps its last value. */
  function Dict(entries: seq<(text, Json)>): map<text, Json> {
    if entries == [] then map[]
    else Dict(entries[..|entries| - 1])[entries[|entries| - 1].0 := entries[|entries| - 1].1]
  }

  const QUOTE: ascii := '"' as int
  const BACKSLASH: ascii := '\\' as int
  const COMMA: ascii := ',' as int
  const COLON: ascii := ':' as int
  const OPEN_ARRAY: ascii := '[' as int
  const CLOSE_ARRAY: ascii := ']' as int
  const OPEN_OBJECT: ascii := '{' as int
  const CLOSE_OBJECT: ascii := '}' as int
  const MINUS: ascii := '-' as int
  const U: ascii := 'u' as int

  // ---- writing ----

  predicate IsHigh(c: int) {
    0xD800 <= c < 0xDC00
  }

  predicate IsLow(c: int) {
    0xDC00 <= c < 0xE000
  }

  function HighOf(c: codepoint): (u: codepoint)
    requires c >= 0x1_0000
    ensures IsHigh(u)
  {
    0xD800 + (c - 0x1_0000) / 0x400
  }

  function LowOf(c: codepoint): (u: codepoint)
    requires c >= 0x1_0000
    ensures IsLow(u)
  {
    0xDC00 + (c - 0x1_0000) % 0x400
  }

  function Paired(high: int, low: int): (c: codepoint)
    requires IsHigh(high) && IsLow(low)
    ensures c >= 0x1_0000 && HighOf(c) == high && LowOf(c) == low
  {
    0x1_0000 + (high - 0xD800) * 0x400 + (low - 0xDC00)
  }

  /** `\uXXXX` */
  function EscapeUnit(u: codepoint): (r: seq<ascii>)
    requires u < 0x1_0000
    ensures |r| == 6
  {
    [BACKSLASH, U] + Hex4(u)
  }

  function EscapeChar(c: codepoint): (r: seq<ascii>)
    ensures r != [] && r[0] != QUOTE
  {
    if c == QUOTE then [BACKSLASH, QUOTE]
    else if c == BACKSLASH then [BACKSLASH, BACKSLASH]
    else if c == 0x0A then [BACKSLASH, 'n' as int]
    else if c == 0x0D then [BACKSLASH, 'r' as int]
    else if c == 0x09 then [BACKSLASH, 't' as int]
    else if c == 0x0C then [BACKSLASH, 'f' as int]
    else if c == 0x08 then [BACKSLASH, 'b' as int]
    else if 0x20 <= c < 0x7F then [c]
    else if c < 0x1_0000 then EscapeUnit(c)
    else EscapeUnit(HighOf(c)) + EscapeUnit(LowOf(c))
  }

  function Escape(s: text): seq<ascii> {
    if s == [] then [] else EscapeChar(s[0]) + Escape(s[1..])
  }

  function DumpsStr(s: text): seq<ascii> {
    [QUOTE] + Escape(s) + [QUOTE]
  }

  function Digits(n: nat): (r: seq<ascii>)
    ensures r != []
    ensures forall i :: 0 <= i < |r| ==> IsDigit(r[i])
  {
    (if n < 10 then [] else Digits(n / 10)) + ['0' as int + n % 10]
  }

  function DumpsInt(n: int): seq<ascii> {
    if n < 0 then [MINUS] + Digits(-n) else Digits(n)
  }

  function Member(key: text, value: seq<ascii>): seq<ascii> {
    DumpsStr(key) + [COLON] + value
  }

  /** `json.dumps(v, sort_keys=True, separators=(",", ":"))` */
  function Dumps(v: Json): seq<ascii>
    decreases v, 1, 0
  {
    match v
    case Null => Ascii("null")
    case Bool(b) => if b then Ascii("true") else Ascii("false")
    case Int(n) => DumpsInt(n)
    case Float(lexeme) => lexeme
    case Str(s) => DumpsStr(s)
    case Arr(items) => [OPEN_ARRAY] + DumpsItems(items) + [CLOSE_ARRAY]
    case Obj(fields) => [OPEN_OBJECT] + DumpsMembers(v, SortedKeys(fields.Keys)) + [CLOSE_OBJECT]
  }

  function DumpsItems(items: seq<Json>): seq<ascii>
    decreases items, 0, 0
  {
    if items == [] then []
    else if |items| == 1 then Dumps(items[0])
    else Dumps(items[0]) + [COMMA] + DumpsItems(items[1..])
  }

  function DumpsMembers(v: Json, keys: seq<text>): seq<ascii>
    requires v.Obj? && forall k :: k in keys ==> k in v.fields
    decreases v, 0, |keys|
  {
    if keys == [] then []
    else
      var member := Member(keys[0], Dumps(v.fields[keys[0]]));
      if |keys| == 1 then member else member + [COMMA] + DumpsMembers(v, keys[1..])
  }

  // ---- reading ----

  predicate IsWhite(c: codepoint) {
    c == 0x20 || c == 0x09 || c == 0x0A || c == 0x0D
  }

  function SkipWhite(t: text): (r: text)
    ensures |r| <= |t|
  {
    if t != [] && IsWhite(t[0]) then SkipWhite(t[1..]) else t
  }

  /** Four hex digits and what follows them. */
  function ScanUnit(t: text): (r: Option<(codepoint, text)>)
    ensures r.Some? ==> r.value.0 < 0x1_0000 && |r.value.1| == |t| - 4
  {
    if |t| < 4 then None
    else match (HexValue(t[0]), HexValue(t[1]), HexValue(t[2]), HexValue(t[3]))
      case (Some(a), Some(b), Some(c), Some(d)) =>
        Some((((a as int * 16 + b as int) * 16 + c as int) * 16 + d as int, t[4..]))
      case _ => None
  }

  /** A `\uXXXX` escape of a low surrogate at the front of t, and what follows it. */
  function ScanLowEscape(t: text): (r: Option<(codepoint, text)>)
    ensures r.Some? ==> IsLow(r.value.0) && |r.value.1| < |t|
  {
    if |t| < 2 || t[0] != BACKSLASH || t[1] != U then None
    else match ScanUnit(t[2..])
      case Some((u, rest)) => if IsLow(u) then Some((u, rest)) else None
      case None => None
  }

  /** The character an escape stands for; t starts after the backslash. An escaped high surrogate
      takes a following escaped low surrogate with it. */
  function ScanEscape(t: text): (r: Option<(codepoint, text)>)
    ensures r.Some? ==> |r.value.1| < |t|
  {
    if t == [] then None
    else if t[0] == QUOTE || t[0] == BACKSLASH || t[0] == '/' as int then Some((t[0], t[1..]))
    else if t[0] == 'b' as int then Some((0x08, t[1..]))
    else if t[0] == 'f' as int then Some((0x0C, t[1..]))
    else if t[0] == 'n' as int then Some((0x0A, t[1..]))
    else if t[0] == 'r' as int then Some((0x0D, t[1..]))
    else if t[0] == 't' as int then Some((0x09, t[1..]))
    else if t[0] == U then
      match ScanUnit(t[1..])
      case None => None
      case Some((u, rest)) =>
        if !IsHigh(u) then Some((u, rest))
        else match ScanLowEscape(rest)
          case Some((low, after)) => Some((Paired(u, low), after))
          case None => Some((u, rest))
    else None
  }

  /** The string whose opening quote has been read. */
  function ScanString(t: text): (r: Option<(text, text)>)
    ensures r.Some? ==> |r.value.1| < |t|
    decreases |t|
  {
    if t == [] || t[0] < 0x20 then None
    else if t[0] == QUOTE then Some(([], t[1..]))
    else if t[0] == BACKSLASH then
      match ScanEscape(t[1..])
      case None => None
      case Some((c, rest)) => Prepend(c, ScanString(rest))
    else Prepend(t[0], ScanString(t[1..]))
  }

  function Prepend(c: codepoint, r: Option<(text, text)>): Option<(text, text)> {
    match r
    case None => None
    case Some((s, rest)) => Some(([c] + s, rest))
  }

  predicate IsDigit(c: codepoint) {
    '0' as int <= c <= '9' as int
  }

  /** The longest run of digits at the front of t, and the rest. */
  function ScanDigits(t: text): (r: (seq<ascii>, text))
    ensures t == r.0 + r.1
    ensures forall i :: 0 <= i < |r.0| ==> IsDigit(r.0[i])
  {
    if t == [] || !IsDigit(t[0]) then ([], t)
    else
      var (ds, rest) := ScanDigits(t[1..]);
      ([t[0]] + ds, rest)
  }

  function DigitsValue(ds: seq<ascii>): nat
    requires forall i :: 0 <= i < |ds| ==> IsDigit(ds[i])
  {
    if ds == [] then 0 else
      assert IsDigit(ds[|ds| - 1]);
      DigitsValue(ds[..|ds| - 1]) * 10 + (ds[|ds| - 1] as int - '0' as int)
  }

  /** The optional fraction of a number, as in `(\.\d+)?`. */
  function ScanFraction(t: text): (r: (seq<ascii>, text))
    ensures |r.1| <= |t|
  {
    if t == [] || t[0] != '.' as int then ([], t)
    else
      var (ds, rest) := ScanDigits(t[1..]);
      if ds == [] then ([], t) else ([t[0]] + ds, rest)
  }

  /** The optional exponent of a number, as in `([eE][-+]?\d+)?`. */
  function ScanExponent(t: text): (r: (seq<ascii>, text))
    ensures |r.1| <= |t|
  {
    if t == [] || (t[0] != 'e' as int && t[0] != 'E' as int) then ([], t)
    else
      var signed := |t| > 1 && (t[1] == MINUS || t[1] == '+' as int);
      var sign: seq<ascii> := if signed then [t[1]] else [];
      var (ds, rest) := ScanDigits(t[1 + |sign|..]);
      if ds == [] then ([], t) else ([t[0]] + sign + ds, rest)
  }

  /** A number whose sign has been read. */
  function ScanNumber(negative: bool, t: text): (r: Option<(Json, text)>)
    ensures r.Some? ==> |r.value.1| < |t|
  {
    if t == [] || !IsDigit(t[0]) then None
    else
      var (ds, rest) := if t[0] == '0' as int then ([t[0]], t[1..]) else ScanDigits(t);
      var (fraction, afterFraction) := ScanFraction(rest);
      var (exponent, afterExponent) := ScanExponent(afterFraction);
      if fraction == [] && exponent == [] then
        var n: int := DigitsValue(ds);
        Some((Int(if negative then -n else n), rest))
      else
        Some((Float((if negative then [MINUS] else []) + ds + fraction + exponent), afterExponent))
  }

  function ScanKeyword(t: text): (r: Option<(Json, text)>)
    ensures r.Some? ==> |r.value.1| < |t|
  {
    if StartsWith(t, Ascii("null")) then Some((Null, t[4..]))
    else if StartsWith(t, Ascii("true")) then Some((Bool(true), t[4..]))
    else if StartsWith(t, Ascii("false")) then Some((Bool(false), t[5..]))
    else if StartsWith(t, Ascii("NaN")) then Some((Float(Ascii("NaN")), t[3..]))
    else if StartsWith(t, Ascii("Infinity")) then Some((Float(Ascii("Infinity")), t[8..]))
    else if StartsWith(t, Ascii("-Infinity")) then Some((Float(Ascii("-Infinity")), t[9..]))
    else None
  }

  function ParseValue(t: text): (r: Option<(Json, text)>)
    ensures r.Some? ==> |r.value.1| < |t|
    decreases |t|, 0
  {
    if t == [] then None
    else if t[0] == QUOTE then
      match ScanString(t[1..])
      case None => None
      case Some((s, rest)) => Some((Str(s), rest))
    else if t[0] == OPEN_OBJECT then
      var inside := SkipWhite(t[1..]);
      if inside != [] && inside[0] == CLOSE_OBJECT then Some((Obj(map[]), inside[1..]))
      else ParseMembers(inside, map[])
    else if t[0] == OPEN_ARRAY then
      var inside := SkipWhite(t[1..]);
      if inside != [] && inside[0] == CLOSE_ARRAY then Some((Arr([]), inside[1..]))
      else
        match ParseItems(inside)
        case None => None
        case Some((items, rest)) => Some((Arr(items), rest))
    else if IsDigit(t[0]) then ScanNumber(false, t)
    else if t[0] == MINUS && |t| > 1 && IsDigit(t[1]) then ScanNumber(true, t[1..])
    else ScanKeyword(t)
  }

  /** The items of a non-empty array, up to and including the closing bracket. */
  function ParseItems(t: text): (r: Option<(seq<Json>, text)>)
    ensures r.Some? ==> |r.value.1| < |t|
    decreases |t|, 1
  {
    match ParseValue(t)
    case None => None
    case Some((v, afterValue)) =>
      var rest := SkipWhite(afterValue);
      if rest == [] then None
      else if rest[0] == CLOSE_ARRAY then Some(([v], rest[1..]))
      else if rest[0] != COMMA then None
      else match ParseItems(SkipWhite(rest[1..]))
        case None => None
        case Some((vs, end)) => Some(([v] + vs, end))
  }

  /** The members of a non-empty object, up to and including the closing brace. A repeated key keeps
      its last value. */
  function ParseMembers(t: text, fields: map<text, Json>): (r: Option<(Json, text)>)
    ensures r.Some? ==> |r.value.1| < |t|
    decreases |t|, 1
  {
    if t == [] || t[0] != QUOTE then None
    else match ScanString(t[1..])
      case None => None
      case Some((key, afterKey)) =>
        var colon := SkipWhite(afterKey);
        if colon == [] || colon[0] != COLON then None
        else match ParseValue(SkipWhite(colon[1..]))
          case None => None
          case Some((v, afterValue)) =>
            var rest := SkipWhite(afterValue);
            var fields' := fields[key := v];
            if rest == [] then None
            else if rest[0] == CLOSE_OBJECT then Some((Obj(fields'), rest[1..]))
            else if rest[0] != COMMA then None
            else ParseMembers(SkipWhite(rest[1..]), fields')
  }

  /** `json.loads` of a string; None for every exception. */
  function ParseDocument(t: text): Option<Json> {
    match ParseValue(SkipWhite(t))
    case None => None
    case Some((v, rest)) => if SkipWhite(rest) == [] then Some(v) else None
  }

  /** `json.loads(b.decode("utf-8"))`; None for every exception. */
  function Loads(b: bytes): Option<Json> {
    match Utf8.Decode(b)
    case None => None
    case Some(t) => ParseDocument(t)
  }
}
