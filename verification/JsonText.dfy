/** The canonical JSON form, character by character: what other implementations have to write to arrive at
    the same AAD. */
module JsonText {
  import opened Basics
  import opened Ordering
  import opened Hex
  import opened Json
  import opened JsonRoundTrip
  import Utf8

  // ---- strings ----

  /** `\uXXXX` with lower-case digits. */
  function UnicodeEscape(u: codepoint): (r: seq<ascii>)
    requires u < 0x1_0000
    ensures |r| == 6
  {
    var digits := Ascii("0123456789abcdef");
    Ascii("\\u") + [digits[u / 0x1000], digits[u / 0x100 % 0x10], digits[u / 0x10 % 0x10], digits[u % 0x10]]
  }

  lemma UnitExact(u: codepoint)
    requires u < 0x1_0000
    ensures EscapeUnit(u) == UnicodeEscape(u)
  {
    DigitsAreLowerCase(u / 0x1000);
    DigitsAreLowerCase(u / 0x100 % 16);
    DigitsAreLowerCase(u / 16 % 16);
    DigitsAreLowerCase(u % 16);
    assert Ascii("\\u") == [BACKSLASH, U];
  }

  predicate IsPrintable(c: codepoint) {
    0x20 <= c <= 0x7E
  }

  /** The characters with an escape of two characters. */
  lemma ShortEscapes()
    ensures EscapeChar('"' as int) == Ascii("\\\"") && EscapeChar('\\' as int) == Ascii("\\\\")
    ensures EscapeChar('\n' as int) == Ascii("\\n") && EscapeChar('\r' as int) == Ascii("\\r")
    ensures EscapeChar('\t' as int) == Ascii("\\t") && EscapeChar(0x0C) == Ascii("\\f") && EscapeChar(0x08) == Ascii("\\b")
  {
    assert Ascii("\\\"") == [BACKSLASH, QUOTE] && Ascii("\\\\") == [BACKSLASH, BACKSLASH];
  }

  /** All other characters: printable ASCII stands for itself, the rest is written as one UTF-16 unit or as
      a pair of them. */
  lemma OtherEscapes(c: codepoint)
    requires c != '"' as int && c != '\\' as int && c != 0x0A && c != 0x0D && c != 0x09 && c != 0x0C && c != 0x08
    ensures IsPrintable(c) ==> EscapeChar(c) == [c]
    ensures !IsPrintable(c) && c < 0x1_0000 ==> EscapeChar(c) == UnicodeEscape(c)
    ensures c >= 0x1_0000 ==>
              var high, low := HighOf(c), LowOf(c);
              && 0xD800 <= high < 0xDC00 <= low < 0xE000 && c == 0x1_0000 + (high - 0xD800) * 0x400 + (low - 0xDC00)
              && EscapeChar(c) == UnicodeEscape(high) + UnicodeEscape(low)
  {
    hide EscapeUnit, UnicodeEscape;
    if c >= 0x1_0000 {
      UnitExact(HighOf(c));
      UnitExact(LowOf(c));
    } else {
      UnitExact(c);
    }
  }

  /** A string is written character by character. */
  lemma {:induction false} EscapeConcat(s: text, t: text)
    ensures Escape(s + t) == Escape(s) + Escape(t)
    ensures |s| == 1 ==> Escape(s) == EscapeChar(s[0])
  {
    hide EscapeChar;
    if s == [] {
      assert s + t == t;
    } else {
      EscapeConcat(s[1..], t);
      assert (s + t)[0] == s[0] && (s + t)[1..] == s[1..] + t;
      if |s| == 1 {
        assert s[1..] == [];
      }
    }
  }

  /** Printable text without quotes and backslashes is written as it is, between quotes. */
  lemma PlainText(s: seq<ascii>)
    requires forall i :: 0 <= i < |s| ==> IsPrintable(s[i]) && s[i] != QUOTE && s[i] != BACKSLASH
    ensures DumpsStr(s) == Ascii("\"") + s + Ascii("\"")
  {
    hide Escape;
    PlainInside(s);
    assert Ascii("\"") == [QUOTE];
  }

  lemma {:induction false} PlainInside(s: seq<ascii>)
    requires forall i :: 0 <= i < |s| ==> IsPrintable(s[i]) && s[i] != QUOTE && s[i] != BACKSLASH
    ensures Escape(s) == s
  {
    if s != [] {
      hide EscapeChar;
      PlainInside(s[1..]);
      OtherEscapes(s[0]);
      assert s == [s[0]] + s[1..];
    }
  }

  // ---- integers ----

  function Pow10(n: nat): (p: nat)
    ensures p > 0
  {
    if n == 0 then 1 else 10 * Pow10(n - 1)
  }

  /** Digit i of a number that is written with m digits. */
  function DigitAt(n: nat, m: nat, i: nat): int
    requires i < m
  {
    '0' as int + n / Pow10(m - 1 - i) % 10
  }

  /** Decimal digits, position by position, and no more of them than the number needs. */
  lemma {:induction false} DigitsExact(n: nat)
    ensures n < Pow10(|Digits(n)|) && (n >= 10 ==> Pow10(|Digits(n)| - 1) <= n) && (n < 10 ==> |Digits(n)| == 1)
    ensures forall i :: 0 <= i < |Digits(n)| ==> Digits(n)[i] as int == DigitAt(n, |Digits(n)|, i)
  {
    if n >= 10 {
      DigitsExact(n / 10);
      LastDigit(n);
      var front := Digits(n / 10);
      PowerStep(|front|, n);
      hide Digits, Pow10;
      forall i | 0 <= i < |front| + 1
        ensures Digits(n)[i] as int == DigitAt(n, |front| + 1, i)
      {
        DigitShifts(n, |front| + 1, i);
      }
    } else {
      assert Digits(n) == ['0' as int + n];
    }
  }

  lemma PowerStep(m: nat, n: nat)
    requires m > 0
    ensures n / 10 < Pow10(m) ==> n < Pow10(m + 1)
    ensures Pow10(m - 1) <= n / 10 ==> Pow10(m) <= n
    ensures Pow10(0) == 1 && (m == 1 && n >= 10 ==> Pow10(m) <= n)
  {
    assert Pow10(m + 1) == 10 * Pow10(m) && Pow10(m) == 10 * Pow10(m - 1);
    assert n == 10 * (n / 10) + n % 10;
  }

  lemma DigitShifts(n: nat, m: nat, i: nat)
    requires i < m
    ensures DigitAt(n, m, i) == if i == m - 1 then '0' as int + n % 10 else DigitAt(n / 10, m - 1, i)
  {
    if i < m - 1 {
      var p := Pow10(m - 2 - i);
      DivideTen(n, p);
      assert Pow10(m - 1 - i) == 10 * p;
    }
  }

  lemma LastDigit(n: nat)
    requires n >= 10
    ensures Digits(n) == Digits(n / 10) + ['0' as int + n % 10]
  {
  }

  lemma DivideTen(n: nat, b: nat)
    requires b > 0
    ensures n / 10 / b == n / (10 * b)
  {
    var m := n / 10;
    var q, r := m / b, m % b;
    var t := n % 10;
    assert n == 10 * m + t && m == q * b + r;
    assert q * (10 * b) == 10 * (q * b);
    assert n == q * (10 * b) + (10 * r + t);
    QuotientUnique(n, 10 * b, q, 10 * r + t);
  }

  /** A minus sign for negative numbers only. */
  lemma IntegerText(n: int)
    ensures n >= 0 ==> Dumps(Int(n)) == Digits(n)
    ensures n < 0 ==> Dumps(Int(n)) == Ascii("-") + Digits(-n)
    ensures Dumps(Null) == Ascii("null") && Dumps(Bool(true)) == Ascii("true") && Dumps(Bool(false)) == Ascii("false")
  {
    assert Ascii("-") == [MINUS];
  }

  // ---- arrays and objects ----

  /** `",".join(parts)` */
  function Separated(parts: seq<seq<ascii>>): seq<ascii> {
    Join(seq(|parts|, i requires 0 <= i < |parts| => if i == 0 then parts[0] else Ascii(",") + parts[i]))
  }

  function Tail(parts: seq<seq<ascii>>): seq<seq<ascii>> {
    seq(|parts|, i requires 0 <= i < |parts| => Ascii(",") + parts[i])
  }

  lemma SeparatedTail(parts: seq<seq<ascii>>)
    requires parts != []
    ensures Separated(parts) == parts[0] + Join(Tail(parts[1..]))
  {
    var all := seq(|parts|, i requires 0 <= i < |parts| => if i == 0 then parts[0] else Ascii(",") + parts[i]);
    assert all[1..] == Tail(parts[1..]);
  }

  lemma SeparatedCons(part: seq<ascii>, parts: seq<seq<ascii>>)
    ensures Separated([part] + parts) == if parts == [] then part else part + [COMMA] + Separated(parts)
  {
    SeparatedTail([part] + parts);
    assert ([part] + parts)[1..] == parts;
    assert Ascii(",") == [COMMA];
    if parts == [] {
      assert Tail(parts) == [] && part + [] == part;
    } else {
      SeparatedTail(parts);
      var t := Tail(parts);
      assert t[1..] == Tail(parts[1..]) && t[0] == [COMMA] + parts[0];
      assert Join(t) == t[0] + Join(t[1..]);
      assert part + ([COMMA] + parts[0] + Join(t[1..])) == part + [COMMA] + (parts[0] + Join(t[1..]));
    }
  }

  function ItemTexts(items: seq<Json>): (r: seq<seq<ascii>>)
    ensures |r| == |items|
  {
    seq(|items|, i requires 0 <= i < |items| => Dumps(items[i]))
  }

  /** An array: the items in order, commas without spaces between them. */
  lemma ArrayText(items: seq<Json>)
    ensures Dumps(Arr(items)) == Ascii("[") + Separated(ItemTexts(items)) + Ascii("]")
  {
    hide Separated;
    ItemsText(items);
    assert Ascii("[") == [OPEN_ARRAY] && Ascii("]") == [CLOSE_ARRAY];
  }

  lemma {:induction false} ItemsText(items: seq<Json>)
    ensures DumpsItems(items) == Separated(ItemTexts(items))
  {
    hide Dumps, DumpsItems, Separated, ItemTexts;
    ItemsStep(items);
    TextsStep(items);
    if items != [] {
      ItemsText(items[1..]);
      SeparatedCons(Dumps(items[0]), ItemTexts(items[1..]));
    } else {
      NothingSeparated();
    }
  }

  lemma ItemsStep(items: seq<Json>)
    ensures items == [] ==> DumpsItems(items) == []
    ensures |items| == 1 ==> DumpsItems(items) == Dumps(items[0])
    ensures |items| > 1 ==> DumpsItems(items) == Dumps(items[0]) + [COMMA] + DumpsItems(items[1..])
  {
    hide Dumps;
  }

  lemma TextsStep(items: seq<Json>)
    ensures items == [] ==> ItemTexts(items) == []
    ensures items != [] ==> ItemTexts(items) == [Dumps(items[0])] + ItemTexts(items[1..])
  {
    hide Dumps, DumpsItems;
  }

  lemma NothingSeparated()
    ensures Separated([]) == []
  {
  }

  function MemberTexts(v: Json, keys: seq<text>): (r: seq<seq<ascii>>)
    requires v.Obj? && forall k :: k in keys ==> k in v.fields
    ensures |r| == |keys|
  {
    seq(|keys|, i requires 0 <= i < |keys| => DumpsStr(keys[i]) + Ascii(":") + Dumps(v.fields[keys[i]]))
  }

  lemma {:induction false} MembersText(v: Json, keys: seq<text>)
    requires v.Obj? && forall k :: k in keys ==> k in v.fields
    ensures DumpsMembers(v, keys) == Separated(MemberTexts(v, keys))
    decreases |keys|
  {
    hide Dumps, DumpsStr, Separated;
    if keys == [] {
      NothingSeparated();
    } else {
      var part := DumpsStr(keys[0]) + Ascii(":") + Dumps(v.fields[keys[0]]);
      MembersText(v, keys[1..]);
      SeparatedCons(part, MemberTexts(v, keys[1..]));
      assert Ascii(":") == [COLON];
      assert MemberTexts(v, keys) == [part] + MemberTexts(v, keys[1..]);
    }
  }

  /** An object: its members in ascending order of the keys, whichever way the dict was built, with no
      spaces around the colons and commas. */
  lemma ObjectText(v: Json, keys: seq<text>)
    requires v.Obj? && (forall k :: k in v.fields.Keys <==> k in keys)
    requires forall i, j :: 0 <= i < j < |keys| ==> LexLeq(keys[i], keys[j]) && keys[i] != keys[j]
    ensures Dumps(v) == Ascii("{") + Separated(MemberTexts(v, keys)) + Ascii("}")
  {
    hide LexLeq, Separated;
    SortedKeysUnique(v.fields.Keys, keys);
    MembersText(v, keys);
    assert Ascii("{") == [OPEN_OBJECT] && Ascii("}") == [CLOSE_OBJECT];
  }

  // ---- around a document ----

  lemma {:induction false} WhiteSkipped(white: text, t: text)
    requires forall c :: c in white ==> IsWhite(c)
    ensures SkipWhite(white + t) == SkipWhite(t)
  {
    if white == [] {
      assert white + t == t;
    } else {
      assert white[0] in white;
      WhiteSkipped(white[1..], t);
      assert (white + t)[0] == white[0] && (white + t)[1..] == white[1..] + t;
    }
  }

  lemma {:induction false} AllWhite(t: text)
    ensures SkipWhite(t) == [] <==> forall c :: c in t ==> IsWhite(c)
  {
    if t != [] {
      AllWhite(t[1..]);
      assert t[0] in t && forall c :: c in t <==> c == t[0] || c in t[1..];
    }
  }

  /** White space around a document is skipped, and anything else behind it is refused. */
  lemma DocumentExact(v: Json, white: text, rest: text)
    requires WellFormed(v) && (v.Int? || v.Float? ==> Stops(rest)) && forall c :: c in white ==> IsWhite(c)
    ensures ParseDocument(white + Dumps(v) + rest)
         == if forall c :: c in rest ==> IsWhite(c) then Some(PairJson(v)) else None
  {
    hide Dumps, ParseValue, PairJson, WellFormed, IsWhite;
    var t: text := Dumps(v) + rest;
    assert white + Dumps(v) + rest == white + t;
    WhiteSkipped(white, t);
    StartNotWhite(v, rest);
    ParseDumps(v, rest);
    AllWhite(rest);
  }

  lemma StartNotWhite(v: Json, rest: text)
    requires WellFormed(v)
    ensures SkipWhite(Dumps(v) + rest) == Dumps(v) + rest
  {
    DumpsStart(v);
    hide Dumps;
  }
}
