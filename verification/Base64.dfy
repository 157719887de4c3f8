/** Base64 as in Python's standard library: the writers of sections 4 and 5 of RFC 4648, and the
    lenient reader behind b64decode, which skips foreign characters and stops at complete padding. */
module Base64 {
  import opened Basics

  type sextet = s: int | 0 <= s < 64

  const PAD: ascii := '=' as int

  /** The two alphabets differ in their last two characters. */
  datatype Alphabet = Standard | UrlSafe

  function Letter(a: Alphabet, s: sextet): (c: ascii) {
    if s < 26 then 'A' as int + s
    else if s < 52 then 'a' as int + (s - 26)
    else if s < 62 then '0' as int + (s - 52)
    else match a
      case Standard => if s == 62 then '+' as int else '/' as int
      case UrlSafe => if s == 62 then '-' as int else '_' as int
  }

  /** What a character counts for. The URL-safe reader maps '-' and '_' onto '+' and '/' first,
      so it reads both alphabets. */
  function Value(a: Alphabet, c: codepoint): Option<sextet> {
    if 'A' as int <= c <= 'Z' as int then Some(c - 'A' as int)
    else if 'a' as int <= c <= 'z' as int then Some(c - 'a' as int + 26)
    else if '0' as int <= c <= '9' as int then Some(c - '0' as int + 52)
    else if c == '+' as int || (a == UrlSafe && c == '-' as int) then Some(62)
    else if c == '/' as int || (a == UrlSafe && c == '_' as int) then Some(63)
    else None
  }

  lemma LetterValue(a: Alphabet, s: sextet)
    ensures Value(a, Letter(a, s)) == Some(s)
    ensures Letter(a, s) != PAD && Letter(a, s) != '.' as int
    ensures a == UrlSafe ==> Letter(a, s) != '/' as int
  {
  }

  /** Three bytes regrouped into four sextets. */
  function Group(b: byte, c: byte, d: byte): (q: seq<sextet>)
    ensures |q| == 4
  {
    [b / 4, b % 4 * 16 + c / 16, c % 16 * 4 + d / 64, d % 64]
  }

  /** Bytes regrouped into sextets; a partial last group is filled up with zero bits. */
  function Sextets(b: bytes): (q: seq<sextet>)
    ensures |q| == |b| / 3 * 4 + (if |b| % 3 == 0 then 0 else |b| % 3 + 1)
  {
    if b == [] then []
    else if |b| == 1 then Group(b[0], 0, 0)[..2]
    else if |b| == 2 then Group(b[0], b[1], 0)[..3]
    else Group(b[0], b[1], b[2]) + Sextets(b[3..])
  }

  function Letters(a: Alphabet, q: seq<sextet>): (r: seq<ascii>)
    ensures |r| == |q|
    ensures forall i :: 0 <= i < |q| ==> r[i] == Letter(a, q[i])
  {
    seq(|q|, i requires 0 <= i < |q| => Letter(a, q[i]))
  }

  /** The text without its padding. */
  function Unpadded(a: Alphabet, b: bytes): seq<ascii> {
    Letters(a, Sextets(b))
  }

  function Pads(n: nat): (r: seq<ascii>)
    ensures |r| == n && forall i :: 0 <= i < n ==> r[i] == PAD
  {
    seq(n, _ => PAD)
  }

  /** `base64.b64encode` and `base64.urlsafe_b64encode` */
  function Encode(a: Alphabet, b: bytes): seq<ascii> {
    Unpadded(a, b) + Pads((3 - |b| % 3) % 3)
  }

  /** The bytes completed by fewer than four sextets. */
  function Flush(q: seq<sextet>): bytes
    requires |q| <= 4
  {
    if |q| < 2 then []
    else if |q| == 2 then [First(q[0], q[1])]
    else if |q| == 3 then [First(q[0], q[1]), Second(q[1], q[2])]
    else [First(q[0], q[1]), Second(q[1], q[2]), Third(q[2], q[3])]
  }

  function First(s: int, t: int): byte
    requires 0 <= s < 64 && 0 <= t < 64
  {
    s * 4 + t / 16
  }

  function Second(s: int, t: int): byte
    requires 0 <= s < 64 && 0 <= t < 64
  {
    s % 16 * 16 + t / 4
  }

  function Third(s: int, t: int): byte
    requires 0 <= s < 64 && 0 <= t < 64
  {
    s % 4 * 64 + t
  }

  /** The reader: `held` are the sextets of the group under way, `pads` the '=' signs just seen. */
  function Read(a: Alphabet, t: text, held: seq<sextet>, pads: nat): Option<bytes>
    requires |held| < 4
    decreases |t|
  {
    if t == [] then if held == [] then Some([]) else None
    else if t[0] == PAD then
      if |held| >= 2 && |held| + pads + 1 >= 4 then Some(Flush(held))
      else Read(a, t[1..], held, if |held| >= 2 then pads + 1 else pads)
    else match Value(a, t[0])
      case None => Read(a, t[1..], held, pads)
      case Some(s) =>
        if |held| < 3 then Read(a, t[1..], held + [s], 0)
        else match Read(a, t[1..], [], 0)
          case None => None
          case Some(rest) => Some(Flush(held + [s]) + rest)
  }

  /** `base64.b64decode` and `base64.urlsafe_b64decode` of a str: None for every exception. */
  function Decode(a: Alphabet, t: text): Option<bytes> {
    if exists i :: 0 <= i < |t| && t[i] >= 0x80 then None else Read(a, t, [], 0)
  }

  // ---- round trip ----

  lemma ReadLetter(a: Alphabet, s: sextet, t: text, held: seq<sextet>)
    requires |held| < 3
    ensures Read(a, [Letter(a, s)] + t, held, 0) == Read(a, t, held + [s], 0)
  {
    LetterValue(a, s);
    assert ([Letter(a, s)] + t)[1..] == t;
  }

  lemma ReadPads(a: Alphabet, held: seq<sextet>)
    requires 2 <= |held| <= 3
    ensures Read(a, Pads(4 - |held|), held, 0) == Some(Flush(held))
  {
    var p := Pads(4 - |held|);
    if |held| == 2 {
      assert p[1..] == Pads(1);
    }
  }

  lemma ReadGroup(a: Alphabet, q: seq<sextet>, t: text)
    requires |q| == 4
    ensures Read(a, Letters(a, q) + t, [], 0)
         == match Read(a, t, [], 0)
            case None => None
            case Some(rest) => Some(Flush(q) + rest)
  {
    var u := Letters(a, q) + t;
    assert u == [Letter(a, q[0])] + u[1..] && u[1..] == [Letter(a, q[1])] + u[2..]
         && u[2..] == [Letter(a, q[2])] + u[3..] && u[3..] == [Letter(a, q[3])] + t;
    ReadLetter(a, q[0], u[1..], []);
    ReadLetter(a, q[1], u[2..], [q[0]]);
    ReadLetter(a, q[2], u[3..], [q[0], q[1]]);
    assert [] + [q[0]] == [q[0]] && [q[0]] + [q[1]] == [q[0], q[1]] && [q[0], q[1]] + [q[2]] == q[..3];
    LetterValue(a, q[3]);
    assert u[3..][1..] == t;
    assert q[..3] + [q[3]] == q;
  }

  lemma ReadShort(a: Alphabet, q: seq<sextet>)
    requires 2 <= |q| <= 3
    ensures Read(a, Letters(a, q) + Pads(4 - |q|), [], 0) == Some(Flush(q))
  {
    var p := Pads(4 - |q|);
    var u := Letters(a, q) + p;
    assert u == [Letter(a, q[0])] + u[1..] && u[1..] == [Letter(a, q[1])] + u[2..];
    ReadLetter(a, q[0], u[1..], []);
    ReadLetter(a, q[1], u[2..], [q[0]]);
    assert [] + [q[0]] == [q[0]] && [q[0]] + [q[1]] == [q[0], q[1]];
    if |q| == 3 {
      assert u[2..] == [Letter(a, q[2])] + p;
      ReadLetter(a, q[2], p, [q[0], q[1]]);
      assert [q[0], q[1]] + [q[2]] == q;
    } else {
      assert u[2..] == p && [q[0], q[1]] == q;
    }
    ReadPads(a, q);
  }

  /** The bytes that a run of sextets stands for. */
  function Unsextets(q: seq<sextet>): bytes {
    if |q| < 4 then Flush(q) else Flush(q[..4]) + Unsextets(q[4..])
  }

  lemma LettersSplit(a: Alphabet, q: seq<sextet>, p: seq<ascii>)
    requires |q| >= 4
    ensures Letters(a, q) + p == Letters(a, q[..4]) + (Letters(a, q[4..]) + p)
    ensures |q[4..]| % 4 == |q| % 4
    ensures Unsextets(q) == Flush(q[..4]) + Unsextets(q[4..])
  {
  }

  lemma ReadTail(a: Alphabet, q: seq<sextet>)
    requires |q| < 4 && |q| != 1
    ensures Read(a, Letters(a, q) + Pads((4 - |q| % 4) % 4), [], 0) == Some(Unsextets(q))
  {
    hide Letter, Value;
    if |q| == 0 {
      hide Flush;
      assert Letters(a, q) + Pads(0) == [];
      NoSextets();
    } else {
      hide Read;
      assert (4 - |q| % 4) % 4 == 4 - |q|;
      ReadShort(a, q);
    }
  }

  /** What the reader makes of letters closed by the padding that completes their last group. */
  lemma {:induction false} ReadLetters(a: Alphabet, q: seq<sextet>)
    requires |q| % 4 != 1
    ensures Read(a, Letters(a, q) + Pads((4 - |q| % 4) % 4), [], 0) == Some(Unsextets(q))
  {
    hide Letter, Value, Flush, Read, Letters, Pads, Unsextets;
    if |q| >= 4 {
      var p := Pads((4 - |q| % 4) % 4);
      LettersSplit(a, q, p);
      ReadGroup(a, q[..4], Letters(a, q[4..]) + p);
      ReadLetters(a, q[4..]);
    } else {
      ReadTail(a, q);
    }
  }

  lemma BytesOfGroup(b: byte, c: byte, d: byte)
    ensures Flush(Group(b, c, d)) == [b, c, d]
    ensures Flush(Group(b, c, 0)[..3]) == [b, c]
    ensures Flush(Group(b, 0, 0)[..2]) == [b]
  {
    hide First, Second, Third;
    ByteParts(b, c, d);
    ByteParts(b, c, 0);
    ByteParts(b, 0, 0);
  }

  lemma ByteParts(b: byte, c: byte, d: byte)
    ensures var g := Group(b, c, d); First(g[0], g[1]) == b && Second(g[1], g[2]) == c && Third(g[2], g[3]) == d
  {
    assert (b % 4 * 16 + c / 16) / 16 == b % 4 && (b % 4 * 16 + c / 16) % 16 == c / 16;
    assert (c % 16 * 4 + d / 64) / 4 == c % 16 && (c % 16 * 4 + d / 64) % 4 == d / 64;
  }

  lemma {:induction false} UnsextetsSextets(b: bytes)
    ensures Unsextets(Sextets(b)) == b
  {
    hide Group, Flush;
    var q := Sextets(b);
    if |b| >= 3 {
      BytesOfGroup(b[0], b[1], b[2]);
      UnsextetsSextets(b[3..]);
      assert q[..4] == Group(b[0], b[1], b[2]) && q[4..] == Sextets(b[3..]);
      assert b == [b[0], b[1], b[2]] + b[3..];
    } else if b == [] {
      NoSextets();
    } else {
      BytesOfGroup(b[0], if |b| == 2 then b[1] else 0, 0);
    }
  }

  lemma NoSextets()
    ensures Flush([]) == []
  {
  }

  /** A run of sextets is canonical when the filling bits of a partial last group are zero. */
  predicate CanonicalTail(q: seq<sextet>) {
    && |q| % 4 != 1
    && (|q| % 4 == 2 ==> q[|q| - 1] % 16 == 0)
    && (|q| % 4 == 3 ==> q[|q| - 1] % 4 == 0)
  }

  lemma GroupOfBytes(s: sextet, t: sextet, u: sextet, v: sextet)
    ensures Group(First(s, t), Second(t, u), Third(u, v)) == [s, t, u, v]
  {
    FirstParts(s, t);
    SecondParts(t, u);
    ThirdParts(u, v);
    hide First, Second, Third;
    assert t / 16 * 16 + t % 16 == t && u / 4 * 4 + u % 4 == u;
  }

  lemma FirstParts(s: sextet, t: sextet)
    ensures First(s, t) / 4 == s && First(s, t) % 4 == t / 16
  {
  }

  lemma SecondParts(s: sextet, t: sextet)
    ensures Second(s, t) / 16 == s % 16 && Second(s, t) % 16 == t / 4
  {
  }

  lemma ThirdParts(s: sextet, t: sextet)
    ensures Third(s, t) / 64 == s % 4 && Third(s, t) % 64 == t
  {
  }

  lemma SextetsCons(b: byte, c: byte, d: byte, rest: bytes)
    ensures Sextets([b, c, d] + rest) == Group(b, c, d) + Sextets(rest)
  {
    hide Group;
    assert ([b, c, d] + rest)[3..] == rest;
  }

  lemma UnsextetsCons(q: seq<sextet>)
    requires |q| >= 4
    ensures Unsextets(q) == [First(q[0], q[1]), Second(q[1], q[2]), Third(q[2], q[3])] + Unsextets(q[4..])
  {
    hide First, Second, Third;
    var g := q[..4];
    assert g[0] == q[0] && g[1] == q[1] && g[2] == q[2] && g[3] == q[3];
  }

  lemma CanonicalRest(q: seq<sextet>)
    requires |q| >= 4 && CanonicalTail(q)
    ensures CanonicalTail(q[4..]) && q == [q[0], q[1], q[2], q[3]] + q[4..]
  {
    assert |q[4..]| % 4 == |q| % 4;
    assert |q| > 4 ==> q[4..][|q| - 5] == q[|q| - 1];
  }

  lemma {:induction false} SextetsUnsextets(q: seq<sextet>)
    requires CanonicalTail(q)
    ensures Sextets(Unsextets(q)) == q
  {
    hide Group, First, Second, Third;
    if |q| >= 4 {
      hide Sextets, Unsextets, CanonicalTail;
      UnsextetsCons(q);
      CanonicalRest(q);
      SextetsUnsextets(q[4..]);
      SextetsCons(First(q[0], q[1]), Second(q[1], q[2]), Third(q[2], q[3]), Unsextets(q[4..]));
      GroupOfBytes(q[0], q[1], q[2], q[3]);
    } else if |q| == 2 {
      ZeroFill(q[0], q[1], 0);
      assert q == [q[0], q[1]];
    } else if |q| == 3 {
      ZeroFill(q[0], q[1], q[2]);
      assert q == [q[0], q[1], q[2]];
    }
  }

  lemma ZeroFill(s: sextet, t: sextet, u: sextet)
    ensures t % 16 == 0 ==> Group(First(s, t), 0, 0)[..2] == [s, t]
    ensures u % 4 == 0 ==> Group(First(s, t), Second(t, u), 0)[..3] == [s, t, u]
  {
    GroupOfBytes(s, t, u, 0);
    if t % 16 == 0 {
      GroupOfBytes(s, t, 0, 0);
      assert Second(t, 0) == 0 && Third(0, 0) == 0;
    }
    if u % 4 == 0 {
      assert Third(u, 0) == 0;
    }
  }

  lemma {:induction false} SextetsCanonical(b: bytes)
    ensures CanonicalTail(Sextets(b))
  {
    if |b| >= 3 {
      hide Group, CanonicalTail;
      SextetsCanonical(b[3..]);
      CanonicalBehindGroup(Group(b[0], b[1], b[2]), Sextets(b[3..]));
    } else if b != [] {
      hide Group;
      FilledWithZeros(b[0], if |b| == 2 then b[1] else 0);
    }
  }

  lemma CanonicalBehindGroup(g: seq<sextet>, q: seq<sextet>)
    requires |g| == 4
    ensures CanonicalTail(g + q) <==> CanonicalTail(q)
  {
    var n := |q|;
    assert |g + q| % 4 == n % 4;
    assert n > 0 ==> (g + q)[n + 3] == q[n - 1];
  }

  lemma FilledWithZeros(b: byte, c: byte)
    ensures Group(b, 0, 0)[1] % 16 == 0 && Group(b, c, 0)[2] % 4 == 0
  {
  }

  /** Reading back what was written returns the bytes, in either alphabet. */
  lemma DecodeEncode(a: Alphabet, b: bytes)
    ensures Decode(a, Encode(a, b)) == Some(b)
  {
    var q := Sextets(b);
    assert (3 - |b| % 3) % 3 == (4 - |q| % 4) % 4;
    ReadLetters(a, q);
    UnsextetsSextets(b);
  }

  /** Dropping the padding loses nothing: `-len(t) % 4` equals signs restore the padded form. */
  lemma PaddingRestored(a: Alphabet, b: bytes)
    ensures Unpadded(a, b) + Pads(-|Unpadded(a, b)| % 4) == Encode(a, b)
    ensures PAD !in Unpadded(a, b)
  {
    var q := Sextets(b);
    forall i | 0 <= i < |q|
      ensures Letters(a, q)[i] != PAD
    {
      LetterValue(a, q[i]);
    }
  }

  lemma EncodeIsDotFree(a: Alphabet, b: bytes)
    ensures '.' as int !in Encode(a, b)
  {
    var q := Sextets(b);
    forall i | 0 <= i < |q|
      ensures Letters(a, q)[i] != '.' as int
    {
      LetterValue(a, q[i]);
    }
  }

  // ---- what is written, literally ----

  function Table(a: Alphabet): (t: seq<ascii>)
    ensures |t| == 64
  {
    Ascii("ABCDEFGHIJKLM") + Ascii("NOPQRSTUVWXYZ") + Ascii("abcdefghijklm") + Ascii("nopqrstuvwxyz")
    + Ascii("0123456789") + (match a case Standard => Ascii("+/") case UrlSafe => Ascii("-_"))
  }

  lemma UpperLetters(s: nat)
    requires s < 13
    ensures Ascii("ABCDEFGHIJKLM")[s] as int == 'A' as int + s && Ascii("NOPQRSTUVWXYZ")[s] as int == 'N' as int + s
  {
    assert "ABCDEFGHIJKLM"[s] as int == 'A' as int + s;
    assert "NOPQRSTUVWXYZ"[s] as int == 'N' as int + s;
  }

  lemma LowerLetters(s: nat)
    requires s < 13
    ensures Ascii("abcdefghijklm")[s] as int == 'a' as int + s && Ascii("nopqrstuvwxyz")[s] as int == 'n' as int + s
  {
    assert "abcdefghijklm"[s] as int == 'a' as int + s;
    assert "nopqrstuvwxyz"[s] as int == 'n' as int + s;
  }

  lemma SixParts(u: seq<ascii>, v: seq<ascii>, l: seq<ascii>, m: seq<ascii>, d: seq<ascii>, e: seq<ascii>, s: nat)
    requires |u| == |v| == |l| == |m| == 13 && |d| == 10 && |e| == 2 && s < 64
    ensures (u + v + l + m + d + e)[s]
         == if s < 13 then u[s] else if s < 26 then v[s - 13] else if s < 39 then l[s - 26]
            else if s < 52 then m[s - 39] else if s < 62 then d[s - 52] else e[s - 62]
  {
  }

  lemma DigitLetters(s: nat)
    requires s < 10
    ensures Ascii("0123456789")[s] as int == '0' as int + s
  {
    assert "0123456789"[s] as int == '0' as int + s;
  }

  lemma LastLetters()
    ensures Ascii("+/") == ['+' as int, '/' as int] && Ascii("-_") == ['-' as int, '_' as int]
  {
  }

  lemma TableAt(a: Alphabet, s: sextet)
    ensures Table(a)[s]
         == if s < 13 then Ascii("ABCDEFGHIJKLM")[s] else if s < 26 then Ascii("NOPQRSTUVWXYZ")[s - 13]
            else if s < 39 then Ascii("abcdefghijklm")[s - 26] else if s < 52 then Ascii("nopqrstuvwxyz")[s - 39]
            else if s < 62 then Ascii("0123456789")[s - 52]
            else (if a == Standard then Ascii("+/") else Ascii("-_"))[s - 62]
  {
    hide Ascii;
    SixParts(Ascii("ABCDEFGHIJKLM"), Ascii("NOPQRSTUVWXYZ"), Ascii("abcdefghijklm"), Ascii("nopqrstuvwxyz"),
             Ascii("0123456789"), if a == Standard then Ascii("+/") else Ascii("-_"), s);
  }

  lemma LetterTable(a: Alphabet, s: sextet)
    ensures Letter(a, s) == Table(a)[s]
  {
    hide Ascii, Table;
    TableAt(a, s);
    if s < 13 {
      UpperLetters(s);
    } else if s < 26 {
      UpperLetters(s - 13);
    } else if s < 39 {
      LowerLetters(s - 26);
    } else if s < 52 {
      LowerLetters(s - 39);
    } else if s < 62 {
      DigitLetters(s - 52);
    } else {
      LastLetters();
    }
  }

  /** What is read as a letter: those of the alphabet, and by the URL-safe reader those of the standard
      alphabet as well. */
  lemma ValueExact(a: Alphabet, c: codepoint, s: sextet)
    ensures Value(a, c) == Some(s) <==> c == Letter(a, s) || (a == UrlSafe && c == Letter(Standard, s))
  {
  }

  /** The four letters of a 24-bit number, six bits each, the high ones first. */
  function Quad(a: Alphabet, n: nat): (r: seq<ascii>)
    requires n < 0x100_0000
    ensures |r| == 4
  {
    [Table(a)[n / 0x4_0000], Table(a)[n / 0x1000 % 0x40], Table(a)[n / 0x40 % 0x40], Table(a)[n % 0x40]]
  }

  lemma SixBits(n: nat, d: nat, q: nat, r: nat, high: nat, low: nat)
    requires d > 0 && n == q * d + r && r < d && q == high * 0x40 + low && low < 0x40
    ensures n / d == q && n / d % 0x40 == low
  {
    QuotientUnique(n, d, q, r);
  }

  lemma ByteHalves(b: nat, m: nat)
    requires m > 0
    ensures b == b / m * m + b % m && b % m < m
  {
  }

  lemma GroupNumber(b: byte, c: byte, d: byte)
    ensures var n: nat := b as int * 0x1_0000 + c as int * 0x100 + d as int;
      Group(b, c, d) == [n / 0x4_0000, n / 0x1000 % 0x40, n / 0x40 % 0x40, n % 0x40]
  {
    var b1: nat, b0: nat, c1: nat, c0: nat, d1: nat, d0: nat :=
      b as int / 4, b as int % 4, c as int / 16, c as int % 16, d as int / 64, d as int % 64;
    ByteHalves(b, 4);
    ByteHalves(c, 16);
    ByteHalves(d, 64);
    assert Group(b, c, d) == [b1, b0 * 16 + c1, c0 * 4 + d1, d0];
    hide Group;
    GroupParts(b1, b0, c1, c0, d1, d0);
  }

  lemma GroupParts(b1: nat, b0: nat, c1: nat, c0: nat, d1: nat, d0: nat)
    requires b1 < 64 && b0 < 4 && c1 < 16 && c0 < 16 && d1 < 4 && d0 < 64
    ensures var n := (b1 * 4 + b0) * 0x1_0000 + (c1 * 16 + c0) * 0x100 + (d1 * 64 + d0);
      && n / 0x4_0000 == b1 && n / 0x1000 % 0x40 == b0 * 16 + c1
      && n / 0x40 % 0x40 == c0 * 4 + d1 && n % 0x40 == d0
  {
    var n := (b1 * 4 + b0) * 0x1_0000 + (c1 * 16 + c0) * 0x100 + (d1 * 64 + d0);
    var low3 := c0 * 0x100 + d1 * 64 + d0;
    SixBits(n, 0x4_0000, b1, (b0 * 16 + c1) * 0x1000 + low3, 0, b1);
    SixBits(n, 0x1000, b1 * 64 + (b0 * 16 + c1), low3, b1, b0 * 16 + c1);
    SixBits(n, 0x40, (b1 * 64 + (b0 * 16 + c1)) * 64 + (c0 * 4 + d1), d0, b1 * 64 + (b0 * 16 + c1), c0 * 4 + d1);
    SixBits(n, 1, n, 0, (b1 * 64 + (b0 * 16 + c1)) * 64 + (c0 * 4 + d1), d0);
  }

  lemma GroupQuad(a: Alphabet, b: byte, c: byte, d: byte)
    ensures Letters(a, Group(b, c, d)) == Quad(a, b as int * 0x1_0000 + c as int * 0x100 + d as int)
  {
    GroupNumber(b, c, d);
    hide Group;
    var q := Group(b, c, d);
    LetterTable(a, q[0]);
    LetterTable(a, q[1]);
    LetterTable(a, q[2]);
    LetterTable(a, q[3]);
    hide Letter, Table;
  }

  /** Three bytes are four letters of the table; one or two bytes at the end are filled with zero bits and
      closed with equal signs. */
  lemma EncodeExact(a: Alphabet, b: byte, c: byte, d: byte, rest: bytes)
    ensures Encode(a, [b, c, d] + rest) == Quad(a, b as int * 0x1_0000 + c as int * 0x100 + d as int) + Encode(a, rest)
    ensures Encode(a, [b, c]) == Quad(a, b as int * 0x1_0000 + c as int * 0x100)[..3] + Ascii("=")
    ensures Encode(a, [b]) == Quad(a, b as int * 0x1_0000)[..2] + Ascii("==")
    ensures Encode(a, []) == []
  {
    hide Letter, Quad, Table, Group;
    GroupQuad(a, b, c, d);
    GroupQuad(a, b, c, 0);
    GroupQuad(a, b, 0, 0);
    EncodeCons(a, b, c, d, rest);
    EncodeShort(a, b, c);
  }

  lemma EncodeCons(a: Alphabet, b: byte, c: byte, d: byte, rest: bytes)
    ensures Encode(a, [b, c, d] + rest) == Letters(a, Group(b, c, d)) + Encode(a, rest)
  {
    hide Letter, Group;
    SextetsCons(b, c, d, rest);
    hide Sextets;
    var g, q := Group(b, c, d), Sextets(rest);
    assert Letters(a, g + q) == Letters(a, g) + Letters(a, q);
    assert |[b, c, d] + rest| % 3 == |rest| % 3;
  }

  lemma EncodeShort(a: Alphabet, b: byte, c: byte)
    ensures Encode(a, [b, c]) == Letters(a, Group(b, c, 0))[..3] + Ascii("=")
    ensures Encode(a, [b]) == Letters(a, Group(b, 0, 0))[..2] + Ascii("==")
    ensures Encode(a, []) == []
  {
    hide Letter, Group;
    assert Ascii("=") == Pads(1) && Ascii("==") == Pads(2);
    assert Letters(a, Group(b, c, 0)[..3]) == Letters(a, Group(b, c, 0))[..3];
    assert Letters(a, Group(b, 0, 0)[..2]) == Letters(a, Group(b, 0, 0))[..2];
  }

  // ---- what the reader makes of any text ----

  /** Letters before any text: whole groups are read, the rest is held. */
  lemma {:induction false} ReadPrefix(a: Alphabet, q: seq<sextet>, t: text)
    ensures var m := |q| / 4 * 4;
      Read(a, Letters(a, q) + t, [], 0)
      == match Read(a, t, q[m..], 0)
         case None => None
         case Some(rest) => Some(Unsextets(q[..m]) + rest)
  {
    hide Letter, Value, Flush, Read;
    var m := |q| / 4 * 4;
    if |q| >= 4 {
      var more := Letters(a, q[4..]) + t;
      LettersSplitAt(a, q, t);
      ReadGroup(a, q[..4], more);
      ReadPrefix(a, q[4..], t);
      assert q[4..][m - 4..] == q[m..] && q[4..][..m - 4] == q[..m][4..] && q[..m][..4] == q[..4];
      assert m >= 4 && Unsextets(q[..m]) == Flush(q[..4]) + Unsextets(q[..m][4..]);
      if Read(a, t, q[m..], 0).Some? {
        var rest := Read(a, t, q[m..], 0).value;
        assert Flush(q[..4]) + (Unsextets(q[..m][4..]) + rest) == Unsextets(q[..m]) + rest;
      }
    } else {
      ReadHeld(a, q, t);
      NoGroups(q);
    }
  }

  lemma NoGroups(q: seq<sextet>)
    requires |q| < 4
    ensures q[0..] == q && q[..0] == [] && Unsextets([]) == []
    ensures forall rest: bytes :: Unsextets([]) + rest == rest
  {
  }

  lemma LettersSplitAt(a: Alphabet, q: seq<sextet>, t: text)
    requires |q| >= 4
    ensures Letters(a, q) + t == Letters(a, q[..4]) + (Letters(a, q[4..]) + t)
    ensures |q[4..]| / 4 * 4 == |q| / 4 * 4 - 4
  {
    hide Letter;
  }

  lemma ReadHeld(a: Alphabet, q: seq<sextet>, t: text)
    requires |q| < 4
    ensures Read(a, Letters(a, q) + t, [], 0) == Read(a, t, q, 0)
  {
    hide Letter, Value, Flush, Read;
    var u := Letters(a, q) + t;
    if |q| == 0 {
      assert u == t;
    } else if |q| == 1 {
      assert u == [Letter(a, q[0])] + t;
      ReadLetter(a, q[0], t, []);
      assert [] + [q[0]] == q;
    } else if |q| == 2 {
      var u1: text := [Letter(a, q[1])] + t;
      assert u == [Letter(a, q[0])] + u1;
      ReadLetter(a, q[0], u1, []);
      ReadLetter(a, q[1], t, [q[0]]);
      assert [] + [q[0]] == [q[0]] && [q[0]] + [q[1]] == q;
    } else {
      var u2: text := [Letter(a, q[2])] + t;
      var u1: text := [Letter(a, q[1])] + u2;
      assert u == [Letter(a, q[0])] + u1;
      ReadLetter(a, q[0], u1, []);
      ReadLetter(a, q[1], u2, [q[0]]);
      ReadLetter(a, q[2], t, [q[0], q[1]]);
      assert [] + [q[0]] == [q[0]] && [q[0]] + [q[1]] == [q[0], q[1]] && [q[0], q[1]] + [q[2]] == q;
    }
  }

  /** A character outside alphabet and padding is skipped, wherever it stands. */
  lemma {:induction false} ReadSkips(a: Alphabet, t: text, c: codepoint, u: text, held: seq<sextet>, pads: nat)
    requires |held| < 4 && Value(a, c) == None && c != PAD
    ensures Read(a, t + [c] + u, held, pads) == Read(a, t + u, held, pads)
    decreases |t|
  {
    hide Value, Flush;
    var v, w := t + [c] + u, t + u;
    if t == [] {
      assert v[0] == c && v[1..] == u && w == u;
    } else {
      var rest := t[1..];
      assert v[0] == w[0] == t[0] && v[1..] == rest + [c] + u && w[1..] == rest + u;
      ReadSkips(a, rest, c, u, held, if |held| >= 2 then pads + 1 else pads);
      ReadSkips(a, rest, c, u, held, pads);
      ReadSkips(a, rest, c, u, [], 0);
      if Value(a, t[0]).Some? && |held| < 3 {
        ReadSkips(a, rest, c, u, held + [Value(a, t[0]).value], 0);
      }
    }
  }

  lemma ForeignSkipped(a: Alphabet, t: text, c: ascii, u: text)
    requires Value(a, c) == None && c != PAD
    ensures Decode(a, t + [c] + u) == Decode(a, t + u)
  {
    hide Value, Read;
    ReadSkips(a, t, c, u, [], 0);
    var v, w := t + [c] + u, t + u;
    if i :| 0 <= i < |w| && w[i] >= 0x80 {
      assert v[if i < |t| then i else i + 1] == w[i];
    }
    if i :| 0 <= i < |v| && v[i] >= 0x80 {
      assert w[if i < |t| then i else i - 1] == v[i];
    }
  }

  /** Letters and padding: a text is accepted when its last group is whole, or has two or three letters and at
      least the equal signs that complete it; ASCII characters behind a completed group change nothing. */
  lemma PaddingExact(a: Alphabet, q: seq<sextet>, n: nat, behind: seq<ascii>)
    ensures Decode(a, Letters(a, q) + Pads(n))
         == if |q| % 4 == 0 || (|q| % 4 >= 2 && n >= 4 - |q| % 4) then Some(Unsextets(q)) else None
    ensures |q| % 4 >= 2 && n >= 4 - |q| % 4 ==>
              Decode(a, Letters(a, q) + (Pads(n) + behind)) == Some(Unsextets(q))
  {
    hide Letter, Value, Flush, Read, Unsextets, Letters, Pads, Decode;
    ReadPadding(a, q[|q| / 4 * 4..], n, behind);
    UnsextetsCut(q);
    PrefixThen(a, q, Pads(n));
    PrefixThen(a, q, Pads(n) + behind);
  }

  lemma PrefixThen(a: Alphabet, q: seq<sextet>, t: seq<ascii>)
    ensures var m := |q| / 4 * 4;
      var r := Read(a, t, q[m..], 0);
      && |q[m..]| == |q| % 4
      && (r == None ==> Decode(a, Letters(a, q) + t) == None)
      && (r.Some? ==> Decode(a, Letters(a, q) + t) == Some(Unsextets(q[..m]) + r.value))
      && (r == Some([]) ==> Decode(a, Letters(a, q) + t) == Some(Unsextets(q[..m])))
  {
    hide Letter, Value, Flush, Read, Unsextets;
    ReadPrefix(a, q, t);
    var u := Unsextets(q[..|q| / 4 * 4]);
    assert u + [] == u;
  }

  lemma CutFirst(q: seq<sextet>)
    requires |q| >= 4
    ensures var m := |q| / 4 * 4;
      && m >= 4 && |q[4..]| / 4 * 4 == m - 4 && |q[4..]| % 4 == |q| % 4
      && q[4..][m - 4..] == q[m..] && q[4..][..m - 4] == q[..m][4..] && q[..m][..4] == q[..4]
      && (|q| % 4 == 0 ==> q[..m] == q)
  {
    var k, r := |q| / 4, |q| % 4;
    assert |q| == 4 * k + r && |q[4..]| == 4 * (k - 1) + r;
  }

  lemma {:induction false} UnsextetsCut(q: seq<sextet>)
    ensures var m := |q| / 4 * 4;
      Unsextets(q) == Unsextets(q[..m]) + Flush(q[m..]) && (|q| % 4 == 0 ==> Unsextets(q) == Unsextets(q[..m]))
  {
    hide Flush;
    var m := |q| / 4 * 4;
    if |q| >= 4 {
      UnsextetsCut(q[4..]);
      CutFirst(q);
      assert Unsextets(q) == Flush(q[..4]) + Unsextets(q[4..]);
      assert Unsextets(q[..m]) == Flush(q[..4]) + Unsextets(q[..m][4..]);
      hide Unsextets;
    } else {
      NoGroups(q);
      assert m == 0 && q[m..] == q;
      assert |q| % 4 == 0 ==> q == [];
    }
  }

  lemma {:induction false} ReadPadding(a: Alphabet, held: seq<sextet>, n: nat, behind: text)
    requires |held| < 4
    ensures Read(a, Pads(n), held, 0)
         == if held == [] then Some([]) else if |held| >= 2 && n >= 4 - |held| then Some(Flush(held)) else None
    ensures |held| >= 2 && n >= 4 - |held| ==> Read(a, Pads(n) + behind, held, 0) == Some(Flush(held))
  {
    hide Flush, Value;
    if |held| < 2 {
      ReadIdlePads(a, held, n);
    } else if n > 0 {
      var p := Pads(n);
      assert p[0] == PAD && p[1..] == Pads(n - 1);
      assert (p + behind)[0] == PAD && (p + behind)[1..] == Pads(n - 1) + behind;
      if |held| == 2 && n > 1 {
        var r := Pads(n - 1);
        assert r[0] == PAD && (r + behind)[0] == PAD;
      }
    }
  }

  lemma {:induction false} ReadIdlePads(a: Alphabet, held: seq<sextet>, n: nat)
    requires |held| < 2
    ensures Read(a, Pads(n), held, 0) == if held == [] then Some([]) else None
  {
    hide Flush, Value;
    if n > 0 {
      assert Pads(n)[1..] == Pads(n - 1);
      ReadIdlePads(a, held, n - 1);
    }
  }

  /** An equal sign that completes nothing is skipped as well. */
  lemma IdlePadSkipped(a: Alphabet, q: seq<sextet>, s: sextet, u: text)
    requires |q| % 4 != 3
    ensures Decode(a, Letters(a, q) + Ascii("=") + [Letter(a, s)] + u) == Decode(a, Letters(a, q) + [Letter(a, s)] + u)
  {
    hide Letter, Value, Flush, Read;
    var l: text := [Letter(a, s)] + u;
    var p: text := [PAD] + l;
    var held := q[|q| / 4 * 4..];
    assert Ascii("=") == [PAD];
    assert Letters(a, q) + Ascii("=") + [Letter(a, s)] + u == Letters(a, q) + p;
    assert Letters(a, q) + [Letter(a, s)] + u == Letters(a, q) + l;
    ReadPrefix(a, q, p);
    ReadPrefix(a, q, l);
    ReadIdlePad(a, held, s, u);
    SameAscii(Letters(a, q), p, l);
  }

  lemma SameAscii(front: seq<ascii>, p: text, l: text)
    requires p == [PAD] + l
    ensures (exists i :: 0 <= i < |front + p| && (front + p)[i] >= 0x80)
       <==> (exists i :: 0 <= i < |front + l| && (front + l)[i] >= 0x80)
  {
    var v, w := front + p, front + l;
    if i :| 0 <= i < |w| && w[i] >= 0x80 {
      assert v[i + 1] == w[i];
    }
    if i :| 0 <= i < |v| && v[i] >= 0x80 {
      assert w[i - 1] == v[i];
    }
  }

  lemma ReadIdlePad(a: Alphabet, held: seq<sextet>, s: sextet, u: text)
    requires |held| < 3
    ensures var l := [Letter(a, s)] + u; Read(a, [PAD] + l, held, 0) == Read(a, l, held, 0)
  {
    LetterValue(a, s);
    hide Letter, Value, Flush;
    var l: text := [Letter(a, s)] + u;
    assert ([PAD] + l)[1..] == l && l[0] == Letter(a, s);
  }
}
